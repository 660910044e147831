// Container/Sequence/list.hpp: the circular doubly linked list with a dummy node. The nodes
// live in a store keyed by address (`next`, `prev` and `data` maps), and a list is named by
// its dummy node's address d together with a ghost sequence xs of its element nodes in
// order. Every relinking is proved by pure lemmas about the maps.
module List {
  import ForwardList
  import Algo

  // ---------------------------------------------------------------------------
  // The ring of a list, as values.

  /** Position k of the list with dummy d and element nodes xs: positions 0 .. |xs| - 1 are
      the elements, and position |xs| is end(), which is the dummy itself. */
  function At(d: int, xs: seq<int>, k: int): int
    requires 0 <= k <= |xs|
  {
    if k < |xs| then xs[k] else d
  }

  /** The position after k around the ring: end() is followed by begin(). */
  function Succ(xs: seq<int>, k: int): int
    requires 0 <= k <= |xs|
  {
    if k == |xs| then 0 else k + 1
  }

  /** The position before k around the ring: begin() is preceded by end(). */
  function Pred(xs: seq<int>, k: int): int
    requires 0 <= k <= |xs|
  {
    if k == 0 then |xs| else k - 1
  }

  /** The node at position k points forward to the next position, and that node points
      back at it. */
  ghost predicate Linked(nx: map<int, int>, pv: map<int, int>, d: int, xs: seq<int>, k: int)
    requires 0 <= k <= |xs|
  {
    && At(d, xs, k) in nx && nx[At(d, xs, k)] == At(d, xs, Succ(xs, k))
    && At(d, xs, Succ(xs, k)) in pv && pv[At(d, xs, Succ(xs, k))] == At(d, xs, k)
  }

  /** No node occurs twice in the ring. */
  ghost predicate Distinct(d: int, xs: seq<int>)
  {
    d !in xs && forall i, j :: 0 <= i < j < |xs| ==> xs[i] != xs[j]
  }

  /** d followed by xs is a well-formed circular doubly linked ring under nx/pv. */
  ghost predicate IsList(nx: map<int, int>, pv: map<int, int>, d: int, xs: seq<int>)
  {
    Distinct(d, xs) && forall k :: 0 <= k <= |xs| ==> Linked(nx, pv, d, xs, k)
  }

  /** The t-th node of a detached run S points forward to the (t + 1)-th and back. */
  ghost predicate Tied(nx: map<int, int>, pv: map<int, int>, S: seq<int>, t: int)
    requires 0 <= t < |S| - 1
  {
    S[t] in nx && nx[S[t]] == S[t + 1] && S[t + 1] in pv && pv[S[t + 1]] == S[t]
  }

  /** S is a run of nodes whose inner links are intact (its two ends may point anywhere). */
  ghost predicate Run(nx: map<int, int>, pv: map<int, int>, S: seq<int>)
  {
    forall t :: 0 <= t < |S| - 1 ==> Tied(nx, pv, S, t)
  }

  /** Every node of the list: the dummy and the elements. */
  ghost function NodeSet(d: int, xs: seq<int>): set<int>
  {
    {d} + set x | x in xs
  }

  /** m2 keeps every entry of m whose key is outside S. */
  ghost predicate Agree<V>(m: map<int, V>, m2: map<int, V>, S: set<int>)
  {
    forall a :: a in m && a !in S ==> a in m2 && m2[a] == m[a]
  }

  /** No node of xs is in S. */
  ghost predicate Avoids(xs: seq<int>, S: set<int>)
  {
    forall k :: 0 <= k < |xs| ==> xs[k] !in S
  }

  /** Every element node holds a value. */
  ghost predicate Holds<T>(data: map<int, T>, xs: seq<int>)
  {
    forall k :: 0 <= k < |xs| ==> xs[k] in data
  }

  /** The values of the list, front to back. */
  function Elements<T>(data: map<int, T>, xs: seq<int>): (r: seq<T>)
    requires Holds(data, xs)
    ensures |r| == |xs| && forall k :: 0 <= k < |xs| ==> r[k] == data[xs[k]]
  {
    seq(|xs|, k requires 0 <= k < |xs| => data[xs[k]])
  }

  lemma AtInNodeSet(d: int, xs: seq<int>, k: int)
    requires 0 <= k <= |xs|
    ensures At(d, xs, k) in NodeSet(d, xs)
  {
    if k < |xs| {
      assert xs[k] in xs;
    }
  }

  /** Positions of xs with the run [i, j) cut out. */
  lemma AtCut(d: int, xs: seq<int>, i: int, j: int, k: int)
    requires 0 <= i <= j <= |xs| && 0 <= k <= |xs| - (j - i)
    ensures k < i ==> At(d, xs[..i] + xs[j..], k) == At(d, xs, k)
    ensures i <= k ==> At(d, xs[..i] + xs[j..], k) == At(d, xs, k + (j - i))
  {
  }

  /** Positions of ys with the run S pasted in before position k. */
  lemma AtPaste(d: int, ys: seq<int>, k: int, S: seq<int>, y: int)
    requires 0 <= k <= |ys| && 0 <= y <= |ys| + |S|
    ensures y < k ==> At(d, ys[..k] + S + ys[k..], y) == At(d, ys, y)
    ensures k <= y < k + |S| ==> At(d, ys[..k] + S + ys[k..], y) == S[y - k]
    ensures k + |S| <= y ==> At(d, ys[..k] + S + ys[k..], y) == At(d, ys, y - |S|)
  {
  }

  /** A ring's node is not the dummy's position unless it is the dummy's position. */
  lemma AtDistinct(d: int, xs: seq<int>, k: int, k2: int)
    requires Distinct(d, xs) && 0 <= k <= |xs| && 0 <= k2 <= |xs| && k != k2
    ensures At(d, xs, k) != At(d, xs, k2)
  {
    if k < |xs| && k2 < |xs| {
      if k < k2 {
        assert xs[k] != xs[k2];
      } else {
        assert xs[k2] != xs[k];
      }
    } else if k < |xs| {
      assert xs[k] in xs;
    } else {
      assert xs[k2] in xs;
    }
  }

  /** The dummy of a list is its own successor exactly when the list is empty. */
  lemma SelfLoop(nx: map<int, int>, pv: map<int, int>, d: int, xs: seq<int>)
    requires IsList(nx, pv, d, xs)
    ensures d in nx && (nx[d] == d <==> xs == [])
  {
    RingKeys(nx, pv, d, xs, |xs|);
    if xs != [] {
      AtDistinct(d, xs, 0, |xs|);
    }
  }

  /** A list's nodes are keys of both link maps. */
  lemma RingKeys(nx: map<int, int>, pv: map<int, int>, d: int, xs: seq<int>, k: int)
    requires IsList(nx, pv, d, xs) && 0 <= k <= |xs|
    ensures At(d, xs, k) in nx && At(d, xs, k) in pv
    ensures pv[At(d, xs, k)] == At(d, xs, Pred(xs, k))
    ensures nx[At(d, xs, k)] == At(d, xs, Succ(xs, k))
  {
    assert Linked(nx, pv, d, xs, k);
    assert Linked(nx, pv, d, xs, Pred(xs, k));
  }

  /** A node outside the ring is neither the dummy nor an element. */
  lemma NotInRing(d: int, xs: seq<int>, a: int, k: int)
    requires a !in NodeSet(d, xs) && 0 <= k <= |xs|
    ensures a != At(d, xs, k)
  {
    AtInNodeSet(d, xs, k);
  }

  // ---------------------------------------------------------------------------
  // Cutting a run out of a ring and pasting a run into one (the two halves of transfer).

  /** Cutting positions [i, j) out of a ring by pointing the node before i forward to
      position j, and position j back at it, leaves a ring of the remaining nodes and a
      detached run of the cut ones. */
  lemma {:induction false} CutRing(nx: map<int, int>, pv: map<int, int>, d: int, xs: seq<int>, i: int, j: int,
                nx2: map<int, int>, pv2: map<int, int>)
    requires IsList(nx, pv, d, xs) && 0 <= i < j <= |xs|
    requires Agree(nx, nx2, {At(d, xs, Pred(xs, i))}) && Agree(pv, pv2, {At(d, xs, j)})
    requires At(d, xs, Pred(xs, i)) in nx2 && nx2[At(d, xs, Pred(xs, i))] == At(d, xs, j)
    requires At(d, xs, j) in pv2 && pv2[At(d, xs, j)] == At(d, xs, Pred(xs, i))
    ensures IsList(nx2, pv2, d, xs[..i] + xs[j..])
    ensures Run(nx2, pv2, xs[i..j])
  {
    var ys := xs[..i] + xs[j..];
    var p, l := At(d, xs, Pred(xs, i)), At(d, xs, j);
    forall a, b | 0 <= a < b < |ys| ensures ys[a] != ys[b] {
      AtCut(d, xs, i, j, a);
      AtCut(d, xs, i, j, b);
      AtDistinct(d, xs, if a < i then a else a + (j - i), if b < i then b else b + (j - i));
    }
    assert d !in ys;
    forall k | 0 <= k <= |ys| ensures Linked(nx2, pv2, d, ys, k) {
      AtCut(d, xs, i, j, k);
      AtCut(d, xs, i, j, Succ(ys, k));
      if k < i - 1 {
        assert Linked(nx, pv, d, xs, k);
        AtDistinct(d, xs, k, Pred(xs, i));
        AtDistinct(d, xs, k + 1, j);
      } else if k == i - 1 {
      } else if k < |ys| {
        var m := k + (j - i);
        assert Linked(nx, pv, d, xs, m);
        AtDistinct(d, xs, m, Pred(xs, i));
        AtDistinct(d, xs, m + 1, j);
      } else if i == 0 {
      } else {
        assert Linked(nx, pv, d, xs, |xs|);
        AtDistinct(d, xs, |xs|, Pred(xs, i));
        AtDistinct(d, xs, 0, j);
      }
    }
    forall t | 0 <= t < j - i - 1 ensures Tied(nx2, pv2, xs[i..j], t) {
      assert Linked(nx, pv, d, xs, i + t);
      AtDistinct(d, xs, i + t, Pred(xs, i));
      AtDistinct(d, xs, i + t + 1, j);
    }
  }

  /** Pasting a detached run S before position k of a ring, by the four link writes of
      transfer, gives a ring with S in place. */
  lemma {:induction false} PasteRing(nx: map<int, int>, pv: map<int, int>, d: int, ys: seq<int>, k: int,
                  S: seq<int>, nx2: map<int, int>, pv2: map<int, int>)
    requires IsList(nx, pv, d, ys) && 0 <= k <= |ys| && |S| > 0 && Run(nx, pv, S)
    requires Distinct(d, S) && forall t :: 0 <= t < |S| ==> S[t] !in NodeSet(d, ys)
    requires Agree(nx, nx2, {At(d, ys, Pred(ys, k)), S[|S| - 1]})
    requires Agree(pv, pv2, {S[0], At(d, ys, k)})
    requires At(d, ys, Pred(ys, k)) in nx2 && nx2[At(d, ys, Pred(ys, k))] == S[0]
    requires S[|S| - 1] in nx2 && nx2[S[|S| - 1]] == At(d, ys, k)
    requires S[0] in pv2 && pv2[S[0]] == At(d, ys, Pred(ys, k))
    requires At(d, ys, k) in pv2 && pv2[At(d, ys, k)] == S[|S| - 1]
    ensures IsList(nx2, pv2, d, ys[..k] + S + ys[k..])
  {
    var zs := ys[..k] + S + ys[k..];
    var m := |S|;
    var p, q := At(d, ys, Pred(ys, k)), At(d, ys, k);
    forall a, b | 0 <= a < b < |zs| ensures zs[a] != zs[b] {
      AtPaste(d, ys, k, S, a);
      AtPaste(d, ys, k, S, b);
      if a < k && b < k {
        AtDistinct(d, ys, a, b);
      } else if a < k && b < k + m {
        NotInRing(d, ys, S[b - k], a);
      } else if a < k {
        AtDistinct(d, ys, a, b - m);
      } else if a < k + m && b < k + m {
        assert S[a - k] != S[b - k];
      } else if a < k + m {
        NotInRing(d, ys, S[a - k], b - m);
      } else {
        AtDistinct(d, ys, a - m, b - m);
      }
    }
    forall t | 0 <= t < m ensures S[t] != d {
      assert S[t] !in NodeSet(d, ys);
    }
    assert d !in zs by {
      forall y | 0 <= y < |zs| ensures zs[y] != d {
        AtPaste(d, ys, k, S, y);
      }
    }
    forall y | 0 <= y <= |zs| ensures Linked(nx2, pv2, d, zs, y) {
      AtPaste(d, ys, k, S, y);
      AtPaste(d, ys, k, S, Succ(zs, y));
      if y < k - 1 {
        assert Linked(nx, pv, d, ys, y);
        AtDistinct(d, ys, y, Pred(ys, k));
        AtDistinct(d, ys, y + 1, k);
        NotInRing(d, ys, S[m - 1], y);
        NotInRing(d, ys, S[0], y + 1);
      } else if y == k - 1 {
      } else if y < k + m - 1 {
        assert Tied(nx, pv, S, y - k);
        NotInRing(d, ys, S[y - k], Pred(ys, k));
        NotInRing(d, ys, S[y - k + 1], k);
      } else if y == k + m - 1 {
      } else if y < |zs| {
        assert Linked(nx, pv, d, ys, y - m);
        AtDistinct(d, ys, y - m, Pred(ys, k));
        AtDistinct(d, ys, y - m + 1, k);
        NotInRing(d, ys, S[m - 1], y - m);
        NotInRing(d, ys, S[0], y - m + 1);
      } else if k == 0 {
      } else {
        assert Linked(nx, pv, d, ys, |ys|);
        AtDistinct(d, ys, |ys|, Pred(ys, k));
        AtDistinct(d, ys, 0, k);
        NotInRing(d, ys, S[m - 1], |ys|);
        NotInRing(d, ys, S[0], 0);
      }
    }
  }

  /** A ring none of whose nodes was rewritten is still the same ring. */
  lemma KeepList(nx: map<int, int>, pv: map<int, int>, nx2: map<int, int>, pv2: map<int, int>,
                 e: int, zs: seq<int>, S: set<int>)
    requires IsList(nx, pv, e, zs) && Agree(nx, nx2, S) && Agree(pv, pv2, S)
    requires NodeSet(e, zs) !! S
    ensures IsList(nx2, pv2, e, zs)
  {
    forall k | 0 <= k <= |zs| ensures Linked(nx2, pv2, e, zs, k) {
      assert Linked(nx, pv, e, zs, k);
      AtInNodeSet(e, zs, k);
      AtInNodeSet(e, zs, Succ(zs, k));
    }
  }

  lemma AgreeAt<V>(m: map<int, V>, m2: map<int, V>, S: set<int>, a: int)
    requires Agree(m, m2, S) && a in m && a !in S
    ensures a in m2 && m2[a] == m[a]
  {
  }

  /** Agreement outside S composes. */
  lemma AgreeTrans<V>(m: map<int, V>, m2: map<int, V>, m3: map<int, V>, S: set<int>, S2: set<int>)
    requires Agree(m, m2, S) && Agree(m2, m3, S2) && S2 * m.Keys <= S
    ensures Agree(m, m3, S)
  {
    forall a | a in m && a !in S ensures a in m3 && m3[a] == m[a] {
      AgreeAt(m, m2, S, a);
      assert a !in S2;
      AgreeAt(m2, m3, S2, a);
    }
  }

  /** Inserting x after the run m between a and b. */
  lemma SeqInsertAt<X>(a: seq<X>, m: seq<X>, b: seq<X>, x: X)
    ensures (a + m + b)[..|a| + |m|] + [x] + (a + m + b)[|a| + |m|..] == a + (m + [x]) + b
  {
    assert (a + m + b)[..|a| + |m|] == a + m;
    assert (a + m + b)[|a| + |m|..] == b;
  }

  // ---------------------------------------------------------------------------
  // The values of a list, as the ring is cut and pasted.

  lemma ElementsConcat<T>(data: map<int, T>, a: seq<int>, b: seq<int>)
    requires Holds(data, a) && Holds(data, b)
    ensures Holds(data, a + b) && Elements(data, a + b) == Elements(data, a) + Elements(data, b)
  {
    assert Holds(data, a + b) by {
      forall k | 0 <= k < |a + b| ensures (a + b)[k] in data {
        if k >= |a| {
          assert (a + b)[k] == b[k - |a|];
        }
      }
    }
  }

  lemma ElementsSlice<T>(data: map<int, T>, xs: seq<int>, i: int, j: int)
    requires Holds(data, xs) && 0 <= i <= j <= |xs|
    ensures Holds(data, xs[i..j]) && Elements(data, xs[i..j]) == Elements(data, xs)[i..j]
  {
    assert Holds(data, xs[i..j]) by {
      forall k | 0 <= k < j - i ensures xs[i..j][k] in data {
        assert xs[i..j][k] == xs[i + k];
      }
    }
  }

  /** Values of nodes whose entries were kept. */
  lemma ElementsAgree<T>(data: map<int, T>, data2: map<int, T>, xs: seq<int>, S: set<int>)
    requires Holds(data, xs) && Agree(data, data2, S) && Avoids(xs, S)
    ensures Holds(data2, xs) && Elements(data2, xs) == Elements(data, xs)
  {
    forall k | 0 <= k < |xs| ensures xs[k] in data2 && data2[xs[k]] == data[xs[k]] {
      AgreeAt(data, data2, S, xs[k]);
    }
  }

  // ---------------------------------------------------------------------------
  // insert and erase on the maps.

  /** The four link writes of insert(pos, val) and the new node's value give the list with
      the new node before position k, and change nothing outside that list. */
  lemma InsertLinks<T>(n0: map<int, int>, p0: map<int, int>, v0: map<int, T>, d: int,
                       xs: seq<int>, k: int, tmp: int, val: T,
                       nx: map<int, int>, pv: map<int, int>, data: map<int, T>, ys: seq<int>)
    requires IsList(n0, p0, d, xs) && Holds(v0, xs) && 0 <= k <= |xs|
    requires tmp !in n0 && tmp !in p0 && tmp !in v0
    requires nx == n0[tmp := At(d, xs, k)][At(d, xs, Pred(xs, k)) := tmp]
    requires pv == p0[tmp := At(d, xs, Pred(xs, k))][At(d, xs, k) := tmp]
    requires data == v0[tmp := val] && ys == xs[..k] + [tmp] + xs[k..]
    ensures IsList(nx, pv, d, ys) && Holds(data, ys)
    ensures Elements(data, ys) == Elements(v0, xs)[..k] + [val] + Elements(v0, xs)[k..]
    ensures NodeSet(d, ys) == NodeSet(d, xs) + {tmp}
    ensures Agree(n0, nx, NodeSet(d, xs)) && Agree(p0, pv, NodeSet(d, xs)) && Agree(v0, data, {})
  {
    InsertRing(n0, p0, d, xs, k, tmp, nx, pv, ys);
    ElementsInsert(v0, xs, k, tmp, val, data, ys);
  }

  lemma {:induction false} InsertRing(n0: map<int, int>, p0: map<int, int>, d: int, xs: seq<int>, k: int,
                   tmp: int, nx: map<int, int>, pv: map<int, int>, ys: seq<int>)
    requires IsList(n0, p0, d, xs) && 0 <= k <= |xs| && tmp !in n0 && tmp !in p0
    requires nx == n0[tmp := At(d, xs, k)][At(d, xs, Pred(xs, k)) := tmp]
    requires pv == p0[tmp := At(d, xs, Pred(xs, k))][At(d, xs, k) := tmp]
    requires ys == xs[..k] + [tmp] + xs[k..]
    ensures IsList(nx, pv, d, ys) && NodeSet(d, ys) == NodeSet(d, xs) + {tmp}
    ensures Agree(n0, nx, NodeSet(d, xs)) && Agree(p0, pv, NodeSet(d, xs))
  {
    AtInNodeSet(d, xs, k);
    AtInNodeSet(d, xs, Pred(xs, k));
    assert tmp !in NodeSet(d, xs) by {
      forall t | 0 <= t < |xs| ensures xs[t] != tmp {
        RingKeys(n0, p0, d, xs, t);
      }
      RingKeys(n0, p0, d, xs, |xs|);
    }
    PasteRing(n0, p0, d, xs, k, [tmp], nx, pv);
    assert forall x :: x in ys <==> x in xs || x == tmp;
  }

  lemma {:induction false} ElementsInsert<T>(v0: map<int, T>, xs: seq<int>, k: int, tmp: int, val: T,
                          data: map<int, T>, ys: seq<int>)
    requires Holds(v0, xs) && 0 <= k <= |xs| && tmp !in v0
    requires data == v0[tmp := val] && ys == xs[..k] + [tmp] + xs[k..]
    ensures Holds(data, ys) && Agree(v0, data, {})
    ensures Elements(data, ys) == Elements(v0, xs)[..k] + [val] + Elements(v0, xs)[k..]
  {
    ElementsSlice(v0, xs, 0, k);
    ElementsSlice(v0, xs, k, |xs|);
    ElementsAgree(v0, data, xs[..k], {});
    ElementsAgree(v0, data, xs[k..], {});
    ElementsConcat(data, xs[..k], [tmp]);
    ElementsConcat(data, xs[..k] + [tmp], xs[k..]);
  }

  /** The two link writes of erase(pos) and freeing the node at position k give the list
      without it, and change nothing outside that list. */
  lemma EraseLinks<T>(n0: map<int, int>, p0: map<int, int>, v0: map<int, T>, d: int,
                      xs: seq<int>, k: int,
                      nx: map<int, int>, pv: map<int, int>, data: map<int, T>, ys: seq<int>)
    requires IsList(n0, p0, d, xs) && Holds(v0, xs) && 0 <= k < |xs|
    requires nx == n0[At(d, xs, Pred(xs, k)) := At(d, xs, k + 1)] - {xs[k]}
    requires pv == p0[At(d, xs, k + 1) := At(d, xs, Pred(xs, k))] - {xs[k]}
    requires data == v0 - {xs[k]} && ys == xs[..k] + xs[k + 1..]
    ensures IsList(nx, pv, d, ys) && Holds(data, ys)
    ensures Elements(data, ys) == Elements(v0, xs)[..k] + Elements(v0, xs)[k + 1..]
    ensures NodeSet(d, ys) == NodeSet(d, xs) - {xs[k]} && At(d, xs, k + 1) == At(d, ys, k)
    ensures Agree(n0, nx, NodeSet(d, xs)) && Agree(p0, pv, NodeSet(d, xs))
    ensures Agree(v0, data, NodeSet(d, xs))
  {
    EraseRing(n0, p0, d, xs, k, nx, pv, ys);
    ElementsErase(v0, d, xs, k, data, ys);
  }

  lemma {:induction false} EraseRing(n0: map<int, int>, p0: map<int, int>, d: int, xs: seq<int>, k: int,
                  nx: map<int, int>, pv: map<int, int>, ys: seq<int>)
    requires IsList(n0, p0, d, xs) && 0 <= k < |xs|
    requires nx == n0[At(d, xs, Pred(xs, k)) := At(d, xs, k + 1)] - {xs[k]}
    requires pv == p0[At(d, xs, k + 1) := At(d, xs, Pred(xs, k))] - {xs[k]}
    requires ys == xs[..k] + xs[k + 1..]
    ensures IsList(nx, pv, d, ys)
    ensures NodeSet(d, ys) == NodeSet(d, xs) - {xs[k]} && At(d, xs, k + 1) == At(d, ys, k)
    ensures Agree(n0, nx, NodeSet(d, xs)) && Agree(p0, pv, NodeSet(d, xs))
  {
    var pos, prev, next := xs[k], At(d, xs, Pred(xs, k)), At(d, xs, k + 1);
    var nx1, pv1 := n0[prev := next], p0[next := prev];
    AtInNodeSet(d, xs, k);
    AtInNodeSet(d, xs, k + 1);
    AtInNodeSet(d, xs, Pred(xs, k));
    CutRing(n0, p0, d, xs, k, k + 1, nx1, pv1);
    assert pos !in NodeSet(d, ys) by {
      forall t | 0 <= t < |ys| ensures ys[t] != pos {
        AtCut(d, xs, k, k + 1, t);
        AtDistinct(d, xs, k, if t < k then t else t + 1);
      }
    }
    KeepList(nx1, pv1, nx, pv, d, ys, {pos});
    AtCut(d, xs, k, k + 1, k);
    assert xs == xs[..k] + [pos] + xs[k + 1..];
    assert forall x :: x in xs <==> x in ys || x == pos;
  }

  lemma ElementsErase<T>(v0: map<int, T>, d: int, xs: seq<int>, k: int, data: map<int, T>,
                         ys: seq<int>)
    requires Distinct(d, xs) && Holds(v0, xs) && 0 <= k < |xs|
    requires data == v0 - {xs[k]} && ys == xs[..k] + xs[k + 1..]
    ensures Holds(data, ys) && Agree(v0, data, NodeSet(d, xs))
    ensures Elements(data, ys) == Elements(v0, xs)[..k] + Elements(v0, xs)[k + 1..]
  {
    var pos := xs[k];
    assert pos in NodeSet(d, xs);
    forall t | 0 <= t < k ensures xs[..k][t] != pos {
      assert xs[t] != xs[k];
    }
    var R := xs[k + 1..];
    forall t | 0 <= t < |R| ensures R[t] != pos {
      assert R[t] == xs[k + 1 + t];
    }
    ElementsSlice(v0, xs, 0, k);
    ElementsSlice(v0, xs, k + 1, |xs|);
    ElementsAgree(v0, data, xs[..k], {pos});
    ElementsAgree(v0, data, xs[k + 1..], {pos});
    ElementsConcat(data, xs[..k], xs[k + 1..]);
  }

  // ---------------------------------------------------------------------------
  // The node store and the list operations.

  /** Every node of added was handed out at or after address b. */
  ghost predicate Fresh(added: seq<int>, b: int)
  {
    forall a :: a in added ==> a >= b
  }

  /** Agreement composes when the second step touched only the first list's nodes and
      nodes handed out after b. */
  lemma FreshAgree<V>(m: map<int, V>, m2: map<int, V>, m3: map<int, V>, S: set<int>,
                      S2: set<int>, b: int)
    requires Agree(m, m2, S) && Agree(m2, m3, S2) && Below(m, b)
    requires forall a :: a in S2 ==> a in S || a >= b
    ensures Agree(m, m3, S)
  {
    forall a | a in S2 && a in m ensures a in S {
      assert a < b;
    }
    AgreeTrans(m, m2, m3, S, S2);
  }

  /** Every key of m is an address below b. */
  ghost predicate Below<V>(m: map<int, V>, b: int)
  {
    forall a :: a in m ==> a < b
  }

  lemma BelowUpdate<V>(m: map<int, V>, x: int, y: V, b: int, b2: int)
    requires Below(m, b) && x < b2 && b <= b2
    ensures Below(m[x := y], b2) && Below(m - {x}, b2)
  {
  }

  // ---------------------------------------------------------------------------
  // Runs of erases and inserts, on the maps.

  /** erase(first, last) once the nodes at positions [i, c) of xs are gone, in the store
      nx/pv/data/brk, starting from the snapshot n0/p0/v0/b0. */
  ghost predicate ErasingIn<T>(nx: map<int, int>, pv: map<int, int>, data: map<int, T>, brk: int,
                               d: int, xs: seq<int>, E: seq<T>, i: int, c: int, ys: seq<int>,
                               n0: map<int, int>, p0: map<int, int>, v0: map<int, T>, b0: int)
  {
    && Below(nx, brk) && Below(pv, brk) && Below(data, brk)
    && IsList(nx, pv, d, ys) && Holds(data, ys)
    && 0 <= i <= c <= |xs| && |E| == |xs| && ys == xs[..i] + xs[c..]
    && Elements(data, ys) == E[..i] + E[c..] && NodeSet(d, ys) <= NodeSet(d, xs)
    && Agree(n0, nx, NodeSet(d, xs)) && Agree(p0, pv, NodeSet(d, xs)) && Agree(v0, data, NodeSet(d, xs))
    && brk == b0
  }

  lemma StartErasing<T>(nx: map<int, int>, pv: map<int, int>, data: map<int, T>, brk: int,
                        d: int, xs: seq<int>, i: int)
    requires Below(nx, brk) && Below(pv, brk) && Below(data, brk)
    requires IsList(nx, pv, d, xs) && Holds(data, xs) && 0 <= i <= |xs|
    ensures ErasingIn(nx, pv, data, brk, d, xs, Elements(data, xs), i, i, xs, nx, pv, data, brk)
  {
    assert xs[..i] + xs[i..] == xs;
    var E := Elements(data, xs);
    assert E[..i] + E[i..] == E;
  }

  lemma ErasingNext<T>(n1: map<int, int>, p1: map<int, int>, v1: map<int, T>,
                       n2: map<int, int>, p2: map<int, int>, v2: map<int, T>, brk: int,
                       d: int, xs: seq<int>, E: seq<T>, i: int, c: int, ys: seq<int>,
                       n0: map<int, int>, p0: map<int, int>, v0: map<int, T>, b0: int, ys2: seq<int>)
    requires ErasingIn(n1, p1, v1, brk, d, xs, E, i, c, ys, n0, p0, v0, b0) && c < |xs|
    requires Below(n2, brk) && Below(p2, brk) && Below(v2, brk)
    requires IsList(n2, p2, d, ys2) && Holds(v2, ys2) && ys2 == ys[..i] + ys[i + 1..]
    requires Elements(v2, ys2) == Elements(v1, ys)[..i] + Elements(v1, ys)[i + 1..]
    requires NodeSet(d, ys2) == NodeSet(d, ys) - {ys[i]}
    requires Agree(n1, n2, NodeSet(d, ys)) && Agree(p1, p2, NodeSet(d, ys)) && Agree(v1, v2, NodeSet(d, ys))
    ensures ErasingIn(n2, p2, v2, brk, d, xs, E, i, c + 1, ys2, n0, p0, v0, b0)
    ensures At(d, ys2, i) == At(d, xs, c + 1)
  {
    AgreeTrans(n0, n1, n2, NodeSet(d, xs), NodeSet(d, ys));
    AgreeTrans(p0, p1, p2, NodeSet(d, xs), NodeSet(d, ys));
    AgreeTrans(v0, v1, v2, NodeSet(d, xs), NodeSet(d, ys));
    CutOneMore(xs, i, c);
    CutOneMore(E, i, c);
    AtCut(d, xs, i, c + 1, i);
  }

  /** Dropping the first element after the prefix of a cut widens the cut by one. */
  lemma CutOneMore<X>(xs: seq<X>, i: int, c: int)
    requires 0 <= i <= c < |xs|
    ensures (xs[..i] + xs[c..])[..i] + (xs[..i] + xs[c..])[i + 1..] == xs[..i] + xs[c + 1..]
  {
    var ys := xs[..i] + xs[c..];
    assert ys[..i] == xs[..i];
    assert ys[i + 1..] == xs[c + 1..];
  }

  /** A run of inserts before pos once the nodes `added` hold the first |added| values of V,
      in the store nx/pv/data/brk, starting from the snapshot n0/p0/v0/b0. */
  ghost predicate InsertingIn<T>(nx: map<int, int>, pv: map<int, int>, data: map<int, T>, brk: int,
                                 d: int, xs: seq<int>, E: seq<T>, k: int, V: seq<T>, added: seq<int>,
                                 ys: seq<int>, n0: map<int, int>, p0: map<int, int>, v0: map<int, T>,
                                 b0: int, pos: int)
  {
    && Below(nx, brk) && Below(pv, brk) && Below(data, brk)
    && IsList(nx, pv, d, ys) && Holds(data, ys)
    && 0 <= k <= |xs| && |E| == |xs| && |added| <= |V|
    && ys == xs[..k] + added + xs[k..] && pos == At(d, ys, k + |added|)
    && Elements(data, ys) == E[..k] + V[..|added|] + E[k..]
    && Fresh(added, b0) && b0 <= brk && NodeSet(d, ys) == NodeSet(d, xs) + (set a | a in added)
    && Below(n0, b0) && Below(p0, b0) && Agree(n0, nx, NodeSet(d, xs)) && Agree(p0, pv, NodeSet(d, xs))
    && Agree(v0, data, {})
  }

  lemma {:induction false} InsertingNext<T>(n1: map<int, int>, p1: map<int, int>, v1: map<int, T>, b1: int,
                         n2: map<int, int>, p2: map<int, int>, v2: map<int, T>, b2: int,
                         d: int, xs: seq<int>, E: seq<T>, k: int, V: seq<T>, added: seq<int>,
                         ys: seq<int>, n0: map<int, int>, p0: map<int, int>, v0: map<int, T>,
                         b0: int, pos: int, t: int, ys2: seq<int>, val: T)
    requires InsertingIn(n1, p1, v1, b1, d, xs, E, k, V, added, ys, n0, p0, v0, b0, pos)
    requires |added| < |V| && V[|added|] == val
    requires Below(n2, b2) && Below(p2, b2) && Below(v2, b2)
    requires IsList(n2, p2, d, ys2) && Holds(v2, ys2)
    requires ys2 == ys[..k + |added|] + [t] + ys[k + |added|..]
    requires Elements(v2, ys2) == Elements(v1, ys)[..k + |added|] + [val] + Elements(v1, ys)[k + |added|..]
    requires t == b1 && b2 == b1 + 1 && NodeSet(d, ys2) == NodeSet(d, ys) + {t}
    requires Agree(n1, n2, NodeSet(d, ys)) && Agree(p1, p2, NodeSet(d, ys)) && Agree(v1, v2, {})
    ensures InsertingIn(n2, p2, v2, b2, d, xs, E, k, V, added + [t], ys2, n0, p0, v0, b0, pos)
    ensures ys2[k] == if added == [] then t else added[0]
  {
    RunGrows(xs, k, added, t, ys, ys2);
    RunGrows(E, k, V[..|added|], val, Elements(v1, ys), Elements(v2, ys2));
    assert V[..|added|] + [val] == V[..|added| + 1];
    NodesGrow(d, xs, added, t, ys, ys2, b0);
    FreshAgree(n0, n1, n2, NodeSet(d, xs), NodeSet(d, ys), b0);
    FreshAgree(p0, p1, p2, NodeSet(d, xs), NodeSet(d, ys), b0);
    AgreeTrans(v0, v1, v2, {}, {});
    AtPaste(d, xs, k, added + [t], k + |added| + 1);
    AtPaste(d, xs, k, added + [t], k);
  }

  /** Inserting x just after the run m that was pasted before position k of a. */
  lemma RunGrows<X>(a: seq<X>, k: int, m: seq<X>, x: X, ys: seq<X>, ys2: seq<X>)
    requires 0 <= k <= |a| && ys == a[..k] + m + a[k..]
    requires ys2 == ys[..k + |m|] + [x] + ys[k + |m|..]
    ensures ys2 == a[..k] + (m + [x]) + a[k..]
  {
    assert ys[..k + |m|] == a[..k] + m;
    assert ys[k + |m|..] == a[k..];
  }

  lemma NodesGrow(d: int, xs: seq<int>, added: seq<int>, t: int, ys: seq<int>, ys2: seq<int>, b: int)
    requires Fresh(added, b) && NodeSet(d, ys) == NodeSet(d, xs) + (set a | a in added)
    requires NodeSet(d, ys2) == NodeSet(d, ys) + {t} && t >= b
    ensures Fresh(added + [t], b) && NodeSet(d, ys2) == NodeSet(d, xs) + (set a | a in added + [t])
    ensures forall a :: a in NodeSet(d, ys) ==> a in NodeSet(d, xs) || a >= b
  {
    forall a | a in NodeSet(d, ys) && a !in NodeSet(d, xs) ensures a >= b {
      assert a in (set a | a in added);
      assert a in added;
    }
    assert forall a :: a in added + [t] <==> a in added || a == t;
  }

  // ---------------------------------------------------------------------------
  // What remove, unique, merge and transfer compute, as values.

  /** remove(v): the values of s other than v, in their order. */
  function Removed<T(==)>(s: seq<T>, v: T): (r: seq<T>)
    ensures |r| <= |s| && v !in r
    ensures forall x :: x in r ==> x in s
  {
    if s == [] then [] else (if s[0] == v then [] else [s[0]]) + Removed(s[1..], v)
  }

  /** remove(v) keeps every other value exactly as often as it occurred. */
  lemma {:induction false} RemovedCount<T>(s: seq<T>, v: T, x: T)
    requires x != v
    ensures multiset(Removed(s, v))[x] == multiset(s)[x]
  {
    if s != [] {
      RemovedCount(s[1..], v, x);
      HeadBag(s);
    }
  }

  /** The bag of a non-empty sequence is its head and the bag of its tail. */
  lemma HeadBag<X>(s: seq<X>)
    requires s != []
    ensures multiset(s) == multiset{s[0]} + multiset(s[1..])
  {
    assert s == [s[0]] + s[1..];
  }

  /** remove(v) of a value that does not occur changes nothing. */
  lemma {:induction false} RemovedAbsent<T>(s: seq<T>, v: T)
    requires v !in s
    ensures Removed(s, v) == s
  {
    if s != [] {
      assert s[0] != v;
      assert s[1..] == s[1..] && forall x :: x in s[1..] ==> x in s;
      RemovedAbsent(s[1..], v);
      assert s == [s[0]] + s[1..];
    }
  }

  /** unique(): every run of equal adjacent values of s collapsed to its first value. */
  function Deduped<T(==)>(s: seq<T>): (r: seq<T>)
    ensures |r| <= |s| && (s != [] ==> r != [] && r[0] == s[0])
    ensures forall i :: 0 <= i < |r| - 1 ==> r[i] != r[i + 1]
  {
    if |s| <= 1 then s
    else if s[0] == s[1] then Deduped(s[1..])
    else [s[0]] + Deduped(s[1..])
  }

  /** unique() keeps exactly the values that occur. */
  lemma {:induction false} DedupedMembers<T>(s: seq<T>, x: T)
    ensures x in Deduped(s) <==> x in s
  {
    if |s| > 1 {
      DedupedMembers(s[1..], x);
      assert s == [s[0]] + s[1..];
      assert s[1] in s[1..];
    }
  }

  /** unique() of a list with no two equal neighbours changes nothing. */
  lemma {:induction false} DedupedNoRuns<T>(s: seq<T>)
    requires forall i :: 0 <= i < |s| - 1 ==> s[i] != s[i + 1]
    ensures Deduped(s) == s
  {
    if |s| > 1 {
      var t := s[1..];
      forall i | 0 <= i < |t| - 1 ensures t[i] != t[i + 1] {
        assert t[i] == s[i + 1] && t[i + 1] == s[i + 2];
      }
      DedupedNoRuns(t);
      assert s[0] != s[1];
      assert s == [s[0]] + t;
    }
  }

  /** merge(x): this list's values a merged with x's values b; the head of b goes first
      only when it is strictly less than the head of a. */
  function Merged(a: seq<int>, b: seq<int>): (r: seq<int>)
    ensures |r| == |a| + |b|
    decreases |a| + |b|
  {
    if a == [] then b
    else if b == [] then a
    else if b[0] < a[0] then [b[0]] + Merged(a, b[1..])
    else [a[0]] + Merged(a[1..], b)
  }

  /** merge(x) loses and invents no value. */
  lemma {:induction false} MergedPermutes(a: seq<int>, b: seq<int>)
    ensures multiset(Merged(a, b)) == multiset(a) + multiset(b)
    decreases |a| + |b|
  {
    if a != [] && b != [] {
      if b[0] < a[0] {
        MergedPermutes(a, b[1..]);
        assert b == [b[0]] + b[1..];
        ConsBag(b[0], Merged(a, b[1..]), b[1..], a);
      } else {
        MergedPermutes(a[1..], b);
        assert a == [a[0]] + a[1..];
        ConsBag(a[0], Merged(a[1..], b), a[1..], b);
      }
    }
  }

  /** Putting x in front of r and of one of two sequences whose bags r's bag joins keeps the
      bags joined. */
  lemma ConsBag(x: int, r: seq<int>, c: seq<int>, d: seq<int>)
    requires multiset(r) == multiset(c) + multiset(d)
    ensures multiset([x] + r) == multiset([x] + c) + multiset(d)
    ensures multiset([x] + r) == multiset(d) + multiset([x] + c)
  {
  }

  /** Every value of r is at least x when every value of a and of b is. */
  lemma LowerBound(x: int, r: seq<int>, a: seq<int>, b: seq<int>)
    requires multiset(r) == multiset(a) + multiset(b)
    requires forall y :: y in a ==> x <= y
    requires forall y :: y in b ==> x <= y
    ensures forall i :: 0 <= i < |r| ==> x <= r[i]
  {
    forall i | 0 <= i < |r| ensures x <= r[i] {
      assert r[i] in multiset(r);
      assert r[i] in multiset(a) || r[i] in multiset(b);
      assert r[i] in a || r[i] in b;
    }
  }

  /** A sorted sequence is its head followed by a sorted tail of values not below it. */
  lemma SortedSplit(s: seq<int>)
    requires Algo.Sorted(s) && s != []
    ensures Algo.Sorted(s[1..]) && forall y :: y in s[1..] ==> s[0] <= y
  {
    var t := s[1..];
    forall i, j | 0 <= i < j < |t| ensures t[i] <= t[j] {
      assert t[i] == s[i + 1] && t[j] == s[j + 1];
    }
    forall y | y in t ensures s[0] <= y {
      var i :| 0 <= i < |t| && t[i] == y;
      assert t[i] == s[i + 1];
    }
  }

  lemma SortedCons(x: int, r: seq<int>)
    requires Algo.Sorted(r) && forall i :: 0 <= i < |r| ==> x <= r[i]
    ensures Algo.Sorted([x] + r)
  {
    var s := [x] + r;
    forall i, j | 0 <= i < j < |s| ensures s[i] <= s[j] {
      if i > 0 {
        assert s[i] == r[i - 1] && s[j] == r[j - 1];
      } else {
        assert s[j] == r[j - 1];
      }
    }
  }

  /** merge(x) of two sorted lists is sorted. */
  lemma {:induction false} MergedSorted(a: seq<int>, b: seq<int>)
    requires Algo.Sorted(a) && Algo.Sorted(b)
    ensures Algo.Sorted(Merged(a, b))
    decreases |a| + |b|
  {
    if a != [] && b != [] {
      SortedSplit(a);
      SortedSplit(b);
      if b[0] < a[0] {
        MergedSorted(a, b[1..]);
        MergedPermutes(a, b[1..]);
        assert forall y :: y in a ==> b[0] <= y by {
          assert forall y :: y in a ==> y == a[0] || y in a[1..] by {
            assert a == [a[0]] + a[1..];
          }
        }
        LowerBound(b[0], Merged(a, b[1..]), a, b[1..]);
        SortedCons(b[0], Merged(a, b[1..]));
      } else {
        MergedSorted(a[1..], b);
        MergedPermutes(a[1..], b);
        assert forall y :: y in b ==> a[0] <= y by {
          assert forall y :: y in b ==> y == b[0] || y in b[1..] by {
            assert b == [b[0]] + b[1..];
          }
        }
        LowerBound(a[0], Merged(a[1..], b), a[1..], b);
        SortedCons(a[0], Merged(a[1..], b));
      }
    }
  }

  /** The values of x below this list's head all go in front of it, in their order. */
  lemma {:induction false} MergedTakes(a: seq<int>, b: seq<int>, m: int)
    requires a != [] && 0 <= m <= |b| && forall t :: 0 <= t < m ==> b[t] < a[0]
    ensures Merged(a, b) == b[..m] + Merged(a, b[m..])
    decreases m
  {
    if m == 0 {
      assert b[..0] == [] && b[0..] == b;
    } else {
      MergedTakes(a, b[1..], m - 1);
      assert b[0] < a[0];
      ShiftCut(b, m, Merged(a, b[m..]));
    }
  }

  /** The values of this list that x's head is not below all stay in front of it: an
      element of x overtakes one of this list only when strictly smaller. */
  lemma {:induction false} MergedKeeps(a: seq<int>, b: seq<int>, m: int)
    requires b != [] && 0 <= m <= |a| && forall t :: 0 <= t < m ==> !(b[0] < a[t])
    ensures Merged(a, b) == a[..m] + Merged(a[m..], b)
    decreases m
  {
    if m == 0 {
      assert a[..0] == [] && a[0..] == a;
    } else {
      MergedKeeps(a[1..], b, m - 1);
      assert !(b[0] < a[0]);
      ShiftCut(a, m, Merged(a[m..], b));
    }
  }

  /** The first m values of s are its head followed by the first m - 1 of its tail. */
  lemma ShiftCut<X>(s: seq<X>, m: int, rest: seq<X>)
    requires 1 <= m <= |s|
    ensures s[1..][m - 1..] == s[m..]
    ensures [s[0]] + (s[1..][..m - 1] + rest) == s[..m] + rest
  {
    assert [s[0]] + s[1..][..m - 1] == s[..m];
  }

  /** transfer(pos, first, last) inside one list: the run xs[i..j] moved to just before
      position k, which lies outside the run. */
  function Moved<X>(xs: seq<X>, i: int, j: int, k: int): (r: seq<X>)
    requires 0 <= i <= j <= |xs| && 0 <= k <= |xs| && (k <= i || j <= k)
    ensures |r| == |xs|
    ensures k <= i ==> r[..k] == xs[..k] && r[k..k + (j - i)] == xs[i..j] && r[j..] == xs[j..]
    ensures j <= k ==> r[..i] == xs[..i] && r[k - (j - i)..k] == xs[i..j] && r[k..] == xs[k..]
  {
    if k <= i then xs[..k] + xs[i..j] + xs[k..i] + xs[j..]
    else xs[..i] + xs[j..k] + xs[i..j] + xs[k..]
  }

  /** A transfer only reorders: the same values, as often as before. */
  lemma MovedPermutes<X>(xs: seq<X>, i: int, j: int, k: int)
    requires 0 <= i <= j <= |xs| && 0 <= k <= |xs| && (k <= i || j <= k)
    ensures multiset(Moved(xs, i, j, k)) == multiset(xs)
  {
    if k <= i {
      SwapMiddle(xs, xs[..k], xs[k..i], xs[i..j], xs[j..]);
    } else {
      SwapMiddle(xs, xs[..i], xs[i..j], xs[j..k], xs[k..]);
    }
  }

  lemma SwapMiddle<X>(xs: seq<X>, a: seq<X>, b: seq<X>, c: seq<X>, e: seq<X>)
    requires xs == a + b + c + e
    ensures multiset(a + c + b + e) == multiset(xs)
  {
    calc {
      multiset(a + c + b + e);
      multiset(a + c + b) + multiset(e);
      multiset(a + c) + multiset(b) + multiset(e);
      multiset(a) + multiset(c) + multiset(b) + multiset(e);
      multiset(a) + multiset(b) + multiset(c) + multiset(e);
      multiset(a + b) + multiset(c) + multiset(e);
      multiset(a + b + c) + multiset(e);
      multiset(xs);
    }
  }

  /** splice(pos, x, i) within one list with pos at i or just after it moves nothing. */
  lemma SplicedInPlace<X>(d: int, xs: seq<int>, k: int, i: int, E: seq<X>)
    requires Distinct(d, xs) && 0 <= k <= |xs| && 0 <= i < |xs| && |E| == |xs|
    requires At(d, xs, k) == At(d, xs, i) || At(d, xs, k) == At(d, xs, i + 1)
    ensures k == i || k == i + 1
    ensures Moved(xs, i, i + 1, k) == xs && Moved(E, i, i + 1, k) == E
  {
    if k != i && k != i + 1 {
      AtDistinct(d, xs, k, i);
      AtDistinct(d, xs, k, i + 1);
    }
    MovedInPlace(xs, i, i + 1);
    MovedInPlace(E, i, i + 1);
  }

  /** Moving a run to either of its own ends changes nothing. */
  lemma MovedInPlace<X>(xs: seq<X>, i: int, j: int)
    requires 0 <= i <= j <= |xs|
    ensures Moved(xs, i, j, i) == xs && Moved(xs, i, j, j) == xs
  {
    assert xs[..i] + xs[i..j] + xs[i..i] + xs[j..] == xs;
    assert xs[..i] + xs[j..j] + xs[i..j] + xs[j..] == xs;
  }

  /** Moving the run back to where it was undoes a transfer. */
  lemma {:induction false} MovedBack<X>(xs: seq<X>, i: int, j: int, k: int)
    requires 0 <= i <= j <= |xs| && 0 <= k <= i
    ensures Moved(Moved(xs, i, j, k), k, k + (j - i), j) == xs
  {
    var r := Moved(xs, i, j, k);
    assert r[..k] == xs[..k];
    assert r[k..k + (j - i)] == xs[i..j];
    assert r[k + (j - i)..j] == xs[k..i];
    assert r[j..] == xs[j..];
    assert xs == xs[..k] + xs[k..i] + xs[i..j] + xs[j..];
  }

  /** The values along a moved run of nodes are the moved values. */
  lemma {:induction false} ElementsMoved<T>(data: map<int, T>, xs: seq<int>, i: int, j: int, k: int)
    requires Holds(data, xs) && 0 <= i <= j <= |xs| && 0 <= k <= |xs| && (k <= i || j <= k)
    ensures Holds(data, Moved(xs, i, j, k))
    ensures Elements(data, Moved(xs, i, j, k)) == Moved(Elements(data, xs), i, j, k)
  {
    if k <= i {
      ElementsGlue(data, xs, xs[..k], xs[i..j], xs[k..i], xs[j..], 0, k, i, j, k, i, j, |xs|);
    } else {
      ElementsGlue(data, xs, xs[..i], xs[j..k], xs[i..j], xs[k..], 0, i, j, k, i, j, k, |xs|);
    }
  }

  /** Four slices of xs glued together carry the matching slices of its values. */
  lemma ElementsGlue<T>(data: map<int, T>, xs: seq<int>, a: seq<int>, b: seq<int>, c: seq<int>,
                        e: seq<int>, a0: int, a1: int, b0: int, b1: int, c0: int, c1: int,
                        e0: int, e1: int)
    requires Holds(data, xs)
    requires 0 <= a0 <= a1 <= |xs| && 0 <= b0 <= b1 <= |xs| && 0 <= c0 <= c1 <= |xs|
    requires 0 <= e0 <= e1 <= |xs|
    requires a == xs[a0..a1] && b == xs[b0..b1] && c == xs[c0..c1] && e == xs[e0..e1]
    ensures Holds(data, a + b + c + e)
    ensures Elements(data, a + b + c + e)
         == Elements(data, xs)[a0..a1] + Elements(data, xs)[b0..b1]
          + Elements(data, xs)[c0..c1] + Elements(data, xs)[e0..e1]
  {
    ElementsSlice(data, xs, a0, a1);
    ElementsSlice(data, xs, b0, b1);
    ElementsSlice(data, xs, c0, c1);
    ElementsSlice(data, xs, e0, e1);
    ElementsConcat(data, a, b);
    ElementsConcat(data, a + b, c);
    ElementsConcat(data, a + b + c, e);
  }

  // ---------------------------------------------------------------------------
  // transfer and reverse, on the maps.

  /** Cutting [i, j) out of a ring leaves two apart pieces that make up all its nodes. */
  lemma {:induction false} CutApart(d: int, xs: seq<int>, i: int, j: int)
    requires Distinct(d, xs) && 0 <= i <= j <= |xs|
    ensures Distinct(d, xs[i..j]) && Distinct(d, xs[..i] + xs[j..])
    ensures forall t :: 0 <= t < j - i ==> xs[i..j][t] !in NodeSet(d, xs[..i] + xs[j..])
    ensures NodeSet(d, xs[..i] + xs[j..]) + (set x | x in xs[i..j]) == NodeSet(d, xs)
  {
    var ys, S := xs[..i] + xs[j..], xs[i..j];
    forall a, b | 0 <= a < b < |S| ensures S[a] != S[b] {
      assert S[a] == xs[i + a] && S[b] == xs[i + b];
    }
    forall t | 0 <= t < |S| ensures S[t] != d && S[t] !in NodeSet(d, ys) {
      assert S[t] == xs[i + t] && xs[i + t] in xs;
      forall u | 0 <= u < |ys| ensures ys[u] != S[t] {
        if u < i {
          assert ys[u] == xs[u];
        } else {
          assert ys[u] == xs[u + (j - i)];
        }
      }
    }
    forall a, b | 0 <= a < b < |ys| ensures ys[a] != ys[b] {
      var a2 := if a < i then a else a + (j - i);
      var b2 := if b < i then b else b + (j - i);
      assert ys[a] == xs[a2] && ys[b] == xs[b2];
    }
    forall t | 0 <= t < |ys| ensures ys[t] != d {
      var t2 := if t < i then t else t + (j - i);
      assert ys[t] == xs[t2] && xs[t2] in xs;
    }
    assert xs == xs[..i] + S + xs[j..];
  }

  /** Pasting S into a ring adds exactly the nodes of S. */
  lemma NodeSetPaste(d: int, xs: seq<int>, k: int, S: seq<int>)
    requires 0 <= k <= |xs|
    ensures NodeSet(d, xs[..k] + S + xs[k..]) == NodeSet(d, xs) + (set x | x in S)
  {
    assert xs == xs[..k] + xs[k..];
  }

  /** The pieces of a cut glued back with the run before position k of the rest. */
  lemma CutPaste<X>(xs: seq<X>, i: int, j: int, k: int)
    requires 0 <= i <= j <= |xs| && 0 <= k <= |xs| && (k <= i || j <= k)
    ensures var ys, k2 := xs[..i] + xs[j..], if k <= i then k else k - (j - i);
            0 <= k2 <= |ys| && ys[..k2] + xs[i..j] + ys[k2..] == Moved(xs, i, j, k)
  {
    var ys := xs[..i] + xs[j..];
    if k <= i {
      assert ys[..k] == xs[..k] && ys[k..] == xs[k..i] + xs[j..];
    } else {
      assert ys[..k - (j - i)] == xs[..i] + xs[j..k] && ys[k - (j - i)..] == xs[k..];
    }
  }

  /** CutRing for the two stores the source makes to unlink [i, j). */
  lemma CutAt(n0: map<int, int>, p0: map<int, int>, n1: map<int, int>, p1: map<int, int>,
              d: int, xs: seq<int>, i: int, j: int, P: int, L: int)
    requires IsList(n0, p0, d, xs) && 0 <= i < j <= |xs|
    requires P == At(d, xs, Pred(xs, i)) && L == At(d, xs, j)
    requires n1 == n0[P := L] && p1 == p0[L := P]
    ensures IsList(n1, p1, d, xs[..i] + xs[j..]) && Run(n1, p1, xs[i..j])
    ensures P in NodeSet(d, xs) && L in NodeSet(d, xs) && P in n0 && L in p0
    ensures xs[i] in p0 && xs[j - 1] in n0
  {
    RingKeys(n0, p0, d, xs, i);
    RingKeys(n0, p0, d, xs, j - 1);
    CutRing(n0, p0, d, xs, i, j, n1, p1);
    AtInNodeSet(d, xs, Pred(xs, i));
    AtInNodeSet(d, xs, j);
    RingKeys(n0, p0, d, xs, Pred(xs, i));
    RingKeys(n0, p0, d, xs, j);
  }

  /** PasteRing for the four stores the source makes to link the run S in before position
      k of ys, whose node is pos and whose predecessor is Q. */
  lemma PasteAt(n1: map<int, int>, p1: map<int, int>, n2: map<int, int>, p2: map<int, int>,
                d: int, ys: seq<int>, k: int, S: seq<int>, Q: int, pos: int)
    requires IsList(n1, p1, d, ys) && 0 <= k <= |ys| && |S| > 0 && Run(n1, p1, S)
    requires Distinct(d, S) && forall t :: 0 <= t < |S| ==> S[t] !in NodeSet(d, ys)
    requires Q == At(d, ys, Pred(ys, k)) && pos == At(d, ys, k)
    requires n2 == n1[Q := S[0]][S[|S| - 1] := pos] && p2 == p1[S[0] := Q][pos := S[|S| - 1]]
    ensures IsList(n2, p2, d, ys[..k] + S + ys[k..])
    ensures Q in NodeSet(d, ys) && pos in NodeSet(d, ys) && Q in n1 && pos in p1
  {
    AtInNodeSet(d, ys, Pred(ys, k));
    AtInNodeSet(d, ys, k);
    assert Q != S[|S| - 1] && pos != S[0];
    PasteRing(n1, p1, d, ys, k, S, n2, p2);
    RingKeys(n1, p1, d, ys, Pred(ys, k));
    RingKeys(n1, p1, d, ys, k);
  }

  /** Three stores at keys of S leave everything outside S, and the keys, as they were. */
  lemma Stores3(m0: map<int, int>, m2: map<int, int>, a: int, x: int, b: int, y: int, c: int,
                z: int, S: set<int>)
    requires m2 == m0[a := x][b := y][c := z]
    requires a in S && b in S && c in S && a in m0 && b in m0 && c in m0
    ensures Agree(m0, m2, S) && m2.Keys == m0.Keys
  {
  }

  /** transfer(pos, first, last) inside one list, on the maps: n1/p1 after the run [i, j)
      is unlinked, n2/p2 after it is linked back in before position k. */
  lemma {:induction false} TransferWithinRing(n0: map<int, int>, p0: map<int, int>, n1: map<int, int>,
                           p1: map<int, int>, n2: map<int, int>, p2: map<int, int>,
                           d: int, xs: seq<int>, i: int, j: int, k: int)
    requires IsList(n0, p0, d, xs) && 0 <= i < j <= |xs| && 0 <= k <= |xs| && (k < i || j < k)
    requires n1 == n0[At(d, xs, Pred(xs, i)) := At(d, xs, j)]
    requires p1 == p0[At(d, xs, j) := At(d, xs, Pred(xs, i))]
    requires n2 == n1[At(d, xs, Pred(xs, k)) := xs[i]][xs[j - 1] := At(d, xs, k)]
    requires p2 == p1[xs[i] := At(d, xs, Pred(xs, k))][At(d, xs, k) := xs[j - 1]]
    ensures IsList(n2, p2, d, Moved(xs, i, j, k))
    ensures NodeSet(d, Moved(xs, i, j, k)) == NodeSet(d, xs)
  {
    var ys, S := xs[..i] + xs[j..], xs[i..j];
    var k2 := if k < i then k else k - (j - i);
    var P, L, Q, pos := At(d, xs, Pred(xs, i)), At(d, xs, j), At(d, xs, Pred(xs, k)), At(d, xs, k);
    CutAt(n0, p0, n1, p1, d, xs, i, j, P, L);
    CutApart(d, xs, i, j);
    AtCut(d, xs, i, j, k2);
    AtCut(d, xs, i, j, Pred(ys, k2));
    assert S[0] == xs[i] && S[|S| - 1] == xs[j - 1];
    PasteAt(n1, p1, n2, p2, d, ys, k2, S, Q, pos);
    CutPaste(xs, i, j, k);
    NodeSetPaste(d, ys, k2, S);
  }

  /** The stores of transfer(pos, first, last) inside one list change links of its own
      nodes only. */
  lemma TransferWithinFrame(n0: map<int, int>, p0: map<int, int>, n2: map<int, int>,
                            p2: map<int, int>, d: int, xs: seq<int>, i: int, j: int, k: int)
    requires IsList(n0, p0, d, xs) && 0 <= i < j <= |xs| && 0 <= k <= |xs|
    requires n2 == n0[At(d, xs, Pred(xs, i)) := At(d, xs, j)]
                     [At(d, xs, Pred(xs, k)) := xs[i]][xs[j - 1] := At(d, xs, k)]
    requires p2 == p0[At(d, xs, j) := At(d, xs, Pred(xs, i))]
                     [xs[i] := At(d, xs, Pred(xs, k))][At(d, xs, k) := xs[j - 1]]
    ensures n2.Keys == n0.Keys && p2.Keys == p0.Keys
    ensures Agree(n0, n2, NodeSet(d, xs)) && Agree(p0, p2, NodeSet(d, xs))
  {
    var P, L, Q, pos := At(d, xs, Pred(xs, i)), At(d, xs, j), At(d, xs, Pred(xs, k)), At(d, xs, k);
    RingKeys(n0, p0, d, xs, Pred(xs, i));
    RingKeys(n0, p0, d, xs, j);
    RingKeys(n0, p0, d, xs, Pred(xs, k));
    RingKeys(n0, p0, d, xs, k);
    RingKeys(n0, p0, d, xs, i);
    RingKeys(n0, p0, d, xs, j - 1);
    AtInNodeSet(d, xs, Pred(xs, i));
    AtInNodeSet(d, xs, j);
    AtInNodeSet(d, xs, Pred(xs, k));
    AtInNodeSet(d, xs, k);
    assert xs[i] in xs && xs[j - 1] in xs;
    Stores3(n0, n2, P, L, Q, xs[i], xs[j - 1], pos, NodeSet(d, xs));
    Stores3(p0, p2, L, P, xs[i], Q, pos, xs[j - 1], NodeSet(d, xs));
  }

  /** transfer(pos, first, last) from list d2/ys into list d1/xs, on the maps: n1/p1
      after the run [i, j) of ys is unlinked, n2/p2 after it is linked in before
      position k of xs. */
  lemma {:induction false} TransferBetweenRings(n0: map<int, int>, p0: map<int, int>, n1: map<int, int>,
                             p1: map<int, int>, n2: map<int, int>, p2: map<int, int>,
                             d1: int, xs: seq<int>, k: int, d2: int, ys: seq<int>, i: int, j: int)
    requires IsList(n0, p0, d1, xs) && IsList(n0, p0, d2, ys) && NodeSet(d1, xs) !! NodeSet(d2, ys)
    requires 0 <= k <= |xs| && 0 <= i < j <= |ys|
    requires n1 == n0[At(d2, ys, Pred(ys, i)) := At(d2, ys, j)]
    requires p1 == p0[At(d2, ys, j) := At(d2, ys, Pred(ys, i))]
    requires n2 == n1[At(d1, xs, Pred(xs, k)) := ys[i]][ys[j - 1] := At(d1, xs, k)]
    requires p2 == p1[ys[i] := At(d1, xs, Pred(xs, k))][At(d1, xs, k) := ys[j - 1]]
    ensures IsList(n2, p2, d1, xs[..k] + ys[i..j] + xs[k..])
    ensures IsList(n2, p2, d2, ys[..i] + ys[j..])
    ensures NodeSet(d1, xs[..k] + ys[i..j] + xs[k..]) !! NodeSet(d2, ys[..i] + ys[j..])
    ensures NodeSet(d1, xs[..k] + ys[i..j] + xs[k..]) + NodeSet(d2, ys[..i] + ys[j..])
         == NodeSet(d1, xs) + NodeSet(d2, ys)
  {
    var ys2, S := ys[..i] + ys[j..], ys[i..j];
    var P, L := At(d2, ys, Pred(ys, i)), At(d2, ys, j);
    var Q, pos := At(d1, xs, Pred(xs, k)), At(d1, xs, k);
    CutAt(n0, p0, n1, p1, d2, ys, i, j, P, L);
    KeepList(n0, p0, n1, p1, d1, xs, {P, L});
    CutApart(d2, ys, i, j);
    assert S[0] == ys[i] && S[|S| - 1] == ys[j - 1];
    assert ys[i] in ys && ys[j - 1] in ys;
    PasteApart(d1, xs, d2, ys, i, j);
    PasteAt(n1, p1, n2, p2, d1, xs, k, S, Q, pos);
    KeepList(n1, p1, n2, p2, d2, ys2, {Q, pos, ys[i], ys[j - 1]});
    NodeSetPaste(d1, xs, k, S);
  }

  /** The stores of transfer(pos, first, last) between two lists change links of their
      nodes only. */
  lemma TransferBetweenFrame(n0: map<int, int>, p0: map<int, int>, n2: map<int, int>,
                             p2: map<int, int>, d1: int, xs: seq<int>, k: int, d2: int,
                             ys: seq<int>, i: int, j: int)
    requires IsList(n0, p0, d1, xs) && IsList(n0, p0, d2, ys)
    requires 0 <= k <= |xs| && 0 <= i < j <= |ys|
    requires n2 == n0[At(d2, ys, Pred(ys, i)) := At(d2, ys, j)]
                     [At(d1, xs, Pred(xs, k)) := ys[i]][ys[j - 1] := At(d1, xs, k)]
    requires p2 == p0[At(d2, ys, j) := At(d2, ys, Pred(ys, i))]
                     [ys[i] := At(d1, xs, Pred(xs, k))][At(d1, xs, k) := ys[j - 1]]
    ensures n2.Keys == n0.Keys && p2.Keys == p0.Keys
    ensures Agree(n0, n2, NodeSet(d1, xs) + NodeSet(d2, ys))
    ensures Agree(p0, p2, NodeSet(d1, xs) + NodeSet(d2, ys))
  {
    var P, L := At(d2, ys, Pred(ys, i)), At(d2, ys, j);
    var Q, pos := At(d1, xs, Pred(xs, k)), At(d1, xs, k);
    RingKeys(n0, p0, d2, ys, Pred(ys, i));
    RingKeys(n0, p0, d2, ys, j);
    RingKeys(n0, p0, d1, xs, Pred(xs, k));
    RingKeys(n0, p0, d1, xs, k);
    RingKeys(n0, p0, d2, ys, i);
    RingKeys(n0, p0, d2, ys, j - 1);
    AtInNodeSet(d2, ys, Pred(ys, i));
    AtInNodeSet(d2, ys, j);
    AtInNodeSet(d1, xs, Pred(xs, k));
    AtInNodeSet(d1, xs, k);
    assert ys[i] in ys && ys[j - 1] in ys;
    var U := NodeSet(d1, xs) + NodeSet(d2, ys);
    Stores3(n0, n2, P, L, Q, ys[i], ys[j - 1], pos, U);
    Stores3(p0, p2, L, P, ys[i], Q, pos, ys[j - 1], U);
  }

  /** A run cut from a list apart from d1/xs has no node of d1/xs. */
  lemma PasteApart(d1: int, xs: seq<int>, d2: int, ys: seq<int>, i: int, j: int)
    requires NodeSet(d1, xs) !! NodeSet(d2, ys) && 0 <= i <= j <= |ys| && Distinct(d2, ys)
    ensures Distinct(d1, ys[i..j]) && forall t :: 0 <= t < j - i ==> ys[i..j][t] !in NodeSet(d1, xs)
  {
    var S := ys[i..j];
    CutApart(d2, ys, i, j);
    assert d1 in NodeSet(d1, xs);
    forall t | 0 <= t < |S| ensures S[t] !in NodeSet(d1, xs) && S[t] != d1 {
      assert S[t] == ys[i + t] && ys[i + t] in ys;
    }
  }

  /** Node a has had its prev and next exchanged with respect to n0/p0. */
  ghost predicate Swapped(n0: map<int, int>, p0: map<int, int>, nx: map<int, int>,
                          pv: map<int, int>, a: int)
  {
    a in n0 && a in p0 && a in nx && a in pv && nx[a] == p0[a] && pv[a] == n0[a]
  }

  /** reverse() has swapped the links of the dummy and of the first c element nodes of xs,
      and of no other node. */
  ghost predicate ReversingIn(n0: map<int, int>, p0: map<int, int>, nx: map<int, int>,
                              pv: map<int, int>, d: int, xs: seq<int>, c: int)
  {
    && 0 <= c <= |xs| && Swapped(n0, p0, nx, pv, d)
    && (forall t :: 0 <= t < c ==> Swapped(n0, p0, nx, pv, xs[t]))
    && (forall t :: c <= t < |xs| ==> Swapped(n0, p0, pv, nx, xs[t]))
    && Agree(n0, nx, NodeSet(d, xs)) && Agree(p0, pv, NodeSet(d, xs))
    && nx.Keys == n0.Keys && pv.Keys == p0.Keys
  }

  lemma StartReversing(n0: map<int, int>, p0: map<int, int>, d: int, xs: seq<int>)
    requires IsList(n0, p0, d, xs)
    ensures d in n0 && d in p0 && ReversingIn(n0, p0, n0[d := p0[d]], p0[d := n0[d]], d, xs, 0)
  {
    RingKeys(n0, p0, d, xs, |xs|);
    forall t | 0 <= t < |xs| ensures Swapped(n0, p0, p0[d := n0[d]], n0[d := p0[d]], xs[t]) {
      RingKeys(n0, p0, d, xs, t);
      assert xs[t] in xs;
    }
  }

  lemma ReversingNext(n0: map<int, int>, p0: map<int, int>, nx: map<int, int>, pv: map<int, int>,
                      d: int, xs: seq<int>, c: int)
    requires IsList(n0, p0, d, xs) && ReversingIn(n0, p0, nx, pv, d, xs, c) && c < |xs|
    ensures ReversingIn(n0, p0, nx[xs[c] := pv[xs[c]]], pv[xs[c] := nx[xs[c]]], d, xs, c + 1)
    ensures nx[xs[c]] == At(d, xs, c + 1)
  {
    RingKeys(n0, p0, d, xs, c);
    var a := xs[c];
    assert Swapped(n0, p0, pv, nx, a);
    forall t | 0 <= t < |xs| && t != c ensures xs[t] != a {
      AtDistinct(d, xs, t, c);
    }
    assert a in NodeSet(d, xs) by {
      assert a in xs;
    }
    assert d != a by {
      assert a in xs;
    }
  }

  /** Where k sits in the ring of xs once the ring is read backwards. */
  function Mirror(xs: seq<int>, k: int): (m: int)
    requires 0 <= k <= |xs|
    ensures 0 <= m <= |xs|
  {
    if k == |xs| then |xs| else |xs| - 1 - k
  }

  /** Stepping forward in the mirrored ring is stepping back in the ring. */
  lemma MirrorStep(xs: seq<int>, k: int)
    requires 0 <= k <= |xs|
    ensures Pred(xs, Mirror(xs, k)) == Mirror(xs, Succ(xs, k))
    ensures Succ(xs, Mirror(xs, Succ(xs, k))) == Mirror(xs, k)
  {
  }

  /** With every link swapped, the ring reads backwards. */
  lemma {:induction false} ReverseRing(n0: map<int, int>, p0: map<int, int>, nx: map<int, int>, pv: map<int, int>,
                    d: int, xs: seq<int>)
    requires IsList(n0, p0, d, xs) && ReversingIn(n0, p0, nx, pv, d, xs, |xs|)
    ensures IsList(nx, pv, d, ForwardList.Reversed(xs))
    ensures NodeSet(d, ForwardList.Reversed(xs)) == NodeSet(d, xs)
  {
    var R := ForwardList.Reversed(xs);
    forall a, b | 0 <= a < b < |R| ensures R[a] != R[b] {
      AtDistinct(d, xs, |xs| - 1 - a, |xs| - 1 - b);
    }
    forall t | 0 <= t < |R| ensures R[t] != d && R[t] in xs {
      assert R[t] == xs[|xs| - 1 - t] && xs[|xs| - 1 - t] in xs;
    }
    forall x | x in xs ensures x in R {
      var t :| 0 <= t < |xs| && xs[t] == x;
      assert R[|xs| - 1 - t] == x;
    }
    forall k | 0 <= k <= |R| ensures Linked(nx, pv, d, R, k) {
      var m, m2 := Mirror(xs, k), Mirror(xs, Succ(xs, k));
      MirrorStep(xs, k);
      assert At(d, R, k) == At(d, xs, m);
      assert At(d, R, Succ(R, k)) == At(d, xs, m2);
      RingKeys(n0, p0, d, xs, m);
      RingKeys(n0, p0, d, xs, m2);
      assert Swapped(n0, p0, nx, pv, At(d, xs, m));
      assert Swapped(n0, p0, nx, pv, At(d, xs, m2));
    }
  }

  /** The values along a reversed ring are the values reversed. */
  lemma ElementsReversed<T>(data: map<int, T>, xs: seq<int>)
    requires Holds(data, xs)
    ensures Holds(data, ForwardList.Reversed(xs))
    ensures Elements(data, ForwardList.Reversed(xs)) == ForwardList.Reversed(Elements(data, xs))
  {
    var R := ForwardList.Reversed(xs);
    forall t | 0 <= t < |R| ensures R[t] in data {
      assert R[t] == xs[|xs| - 1 - t];
    }
  }

  // ---------------------------------------------------------------------------
  // remove and unique, on the maps.

  /** remove(v) once positions [0, c) of xs are done: the |K| nodes K kept so far hold Kv,
      and Kv followed by what remove makes of E[c..] is what it makes of E. */
  ghost predicate RemovingIn<T>(nx: map<int, int>, pv: map<int, int>, data: map<int, T>, brk: int,
                                d: int, xs: seq<int>, E: seq<T>, v: T, c: int, K: seq<int>,
                                Kv: seq<T>, ys: seq<int>, n0: map<int, int>, p0: map<int, int>,
                                v0: map<int, T>, b0: int)
  {
    && Below(nx, brk) && Below(pv, brk) && Below(data, brk)
    && IsList(nx, pv, d, ys) && Holds(data, ys)
    && 0 <= c <= |xs| && |E| == |xs| && |K| == |Kv| && ys == K + xs[c..]
    && Elements(data, ys) == Kv + E[c..] && Removed(E, v) == Kv + Removed(E[c..], v)
    && NodeSet(d, ys) <= NodeSet(d, xs)
    && Agree(n0, nx, NodeSet(d, xs)) && Agree(p0, pv, NodeSet(d, xs)) && Agree(v0, data, NodeSet(d, xs))
    && brk == b0
  }

  lemma StartRemoving<T>(nx: map<int, int>, pv: map<int, int>, data: map<int, T>, brk: int,
                         d: int, xs: seq<int>, v: T)
    requires Below(nx, brk) && Below(pv, brk) && Below(data, brk)
    requires IsList(nx, pv, d, xs) && Holds(data, xs)
    ensures RemovingIn(nx, pv, data, brk, d, xs, Elements(data, xs), v, 0, [], [], xs, nx, pv, data, brk)
  {
    assert [] + xs[0..] == xs;
    var E := Elements(data, xs);
    assert [] + E[0..] == E && E[0..] == E;
  }

  /** What remove makes of E[c..] when E[c] stays or goes. */
  lemma RemovedStep<T>(E: seq<T>, v: T, c: int)
    requires 0 <= c < |E|
    ensures E[c] == v ==> Removed(E[c..], v) == Removed(E[c + 1..], v)
    ensures E[c] != v ==> Removed(E[c..], v) == [E[c]] + Removed(E[c + 1..], v)
  {
    assert E[c..][1..] == E[c + 1..];
    assert [] + Removed(E[c + 1..], v) == Removed(E[c + 1..], v);
  }

  /** remove(v) passing over a node whose value is not v. */
  lemma {:induction false} RemovingKeep<T>(nx: map<int, int>, pv: map<int, int>, data: map<int, T>, brk: int,
                        d: int, xs: seq<int>, E: seq<T>, v: T, c: int, K: seq<int>,
                        Kv: seq<T>, ys: seq<int>, n0: map<int, int>, p0: map<int, int>,
                        v0: map<int, T>, b0: int)
    requires RemovingIn(nx, pv, data, brk, d, xs, E, v, c, K, Kv, ys, n0, p0, v0, b0)
    requires c < |xs| && E[c] != v
    ensures RemovingIn(nx, pv, data, brk, d, xs, E, v, c + 1, K + [xs[c]], Kv + [E[c]], ys,
                       n0, p0, v0, b0)
    ensures ys[|K|] == xs[c] && data[ys[|K|]] == E[c]
  {
    KeepOneMore(K, xs, c);
    KeepOneMore(Kv, E, c);
    RemovedStep(E, v, c);
    assert Elements(data, ys)[|K|] == E[c];
  }

  /** remove(v) erasing the node at position |K| of ys, which holds v: n2/p2/v2 are the
      maps after the erase and ys2 the ring. */
  lemma RemovingErase<T>(n1: map<int, int>, p1: map<int, int>, v1: map<int, T>,
                         n2: map<int, int>, p2: map<int, int>, v2: map<int, T>, brk: int,
                         d: int, xs: seq<int>, E: seq<T>, v: T, c: int, K: seq<int>,
                         Kv: seq<T>, ys: seq<int>, n0: map<int, int>, p0: map<int, int>,
                         v0: map<int, T>, b0: int, ys2: seq<int>)
    requires RemovingIn(n1, p1, v1, brk, d, xs, E, v, c, K, Kv, ys, n0, p0, v0, b0)
    requires c < |xs| && E[c] == v
    requires Below(n2, brk) && Below(p2, brk) && Below(v2, brk)
    requires IsList(n2, p2, d, ys2) && Holds(v2, ys2) && ys2 == ys[..|K|] + ys[|K| + 1..]
    requires Elements(v2, ys2) == Elements(v1, ys)[..|K|] + Elements(v1, ys)[|K| + 1..]
    requires NodeSet(d, ys2) == NodeSet(d, ys) - {ys[|K|]}
    requires Agree(n1, n2, NodeSet(d, ys)) && Agree(p1, p2, NodeSet(d, ys)) && Agree(v1, v2, NodeSet(d, ys))
    ensures RemovingIn(n2, p2, v2, brk, d, xs, E, v, c + 1, K, Kv, ys2, n0, p0, v0, b0)
    ensures At(d, ys2, |K|) == At(d, ys, |K| + 1)
  {
    AgreeTrans(n0, n1, n2, NodeSet(d, xs), NodeSet(d, ys));
    AgreeTrans(p0, p1, p2, NodeSet(d, xs), NodeSet(d, ys));
    AgreeTrans(v0, v1, v2, NodeSet(d, xs), NodeSet(d, ys));
    DropAfter(K, xs, c);
    DropAfter(Kv, E, c);
    RemovedStep(E, v, c);
    AtCut(d, ys, |K|, |K| + 1, |K|);
  }

  /** Keeping the element just after the prefix K of K + a[c..]. */
  lemma KeepOneMore<X>(K: seq<X>, a: seq<X>, c: int)
    requires 0 <= c < |a|
    ensures K + a[c..] == (K + [a[c]]) + a[c + 1..]
  {
    assert a[c..] == [a[c]] + a[c + 1..];
  }

  /** Dropping the element just after the prefix K of K + a[c..]. */
  lemma DropAfter<X>(K: seq<X>, a: seq<X>, c: int)
    requires 0 <= c < |a|
    ensures (K + a[c..])[..|K|] + (K + a[c..])[|K| + 1..] == K + a[c + 1..]
  {
    var ys := K + a[c..];
    assert ys[..|K|] == K;
    assert ys[|K| + 1..] == a[c + 1..];
  }

  /** unique() once position c of xs is next: K is the kept nodes holding Kv, its last
      node (holding E[c - 1]) is `first`, and the values unique makes of E are Kv but its
      last followed by what it makes of E[c - 1..]. */
  ghost predicate DedupingIn<T>(nx: map<int, int>, pv: map<int, int>, data: map<int, T>, brk: int,
                                d: int, xs: seq<int>, E: seq<T>, c: int, K: seq<int>,
                                Kv: seq<T>, ys: seq<int>, n0: map<int, int>, p0: map<int, int>,
                                v0: map<int, T>, b0: int)
  {
    && Below(nx, brk) && Below(pv, brk) && Below(data, brk)
    && IsList(nx, pv, d, ys) && Holds(data, ys)
    && 1 <= c <= |xs| && |E| == |xs| && 1 <= |K| == |Kv| && ys == K + xs[c..]
    && Elements(data, ys) == Kv + E[c..] && Kv[|Kv| - 1] == E[c - 1]
    && Deduped(E) == Kv[..|Kv| - 1] + Deduped(E[c - 1..])
    && NodeSet(d, ys) <= NodeSet(d, xs)
    && Agree(n0, nx, NodeSet(d, xs)) && Agree(p0, pv, NodeSet(d, xs)) && Agree(v0, data, NodeSet(d, xs))
    && brk == b0
  }

  lemma StartDeduping<T>(nx: map<int, int>, pv: map<int, int>, data: map<int, T>, brk: int,
                         d: int, xs: seq<int>)
    requires Below(nx, brk) && Below(pv, brk) && Below(data, brk)
    requires IsList(nx, pv, d, xs) && Holds(data, xs) && xs != []
    ensures DedupingIn(nx, pv, data, brk, d, xs, Elements(data, xs), 1, [xs[0]], [data[xs[0]]], xs,
                       nx, pv, data, brk)
  {
    assert [xs[0]] + xs[1..] == xs;
    var E := Elements(data, xs);
    assert [data[xs[0]]] + E[1..] == E && E[0..] == E;
  }

  /** What unique makes of E[c - 1..] when E[c] equals E[c - 1] or not. */
  lemma DedupedStep<T>(E: seq<T>, c: int)
    requires 1 <= c < |E|
    ensures E[c - 1] == E[c] ==> Deduped(E[c - 1..]) == Deduped(E[c..])
    ensures E[c - 1] != E[c] ==> Deduped(E[c - 1..]) == [E[c - 1]] + Deduped(E[c..])
  {
    assert E[c - 1..][1..] == E[c..];
    assert E[c - 1..][0] == E[c - 1] && E[c - 1..][1] == E[c];
  }

  /** unique() moving on to a node whose value differs from its predecessor's. */
  lemma {:induction false} DedupingKeep<T>(nx: map<int, int>, pv: map<int, int>, data: map<int, T>, brk: int,
                        d: int, xs: seq<int>, E: seq<T>, c: int, K: seq<int>,
                        Kv: seq<T>, ys: seq<int>, n0: map<int, int>, p0: map<int, int>,
                        v0: map<int, T>, b0: int)
    requires DedupingIn(nx, pv, data, brk, d, xs, E, c, K, Kv, ys, n0, p0, v0, b0)
    requires c < |xs| && E[c - 1] != E[c]
    ensures DedupingIn(nx, pv, data, brk, d, xs, E, c + 1, K + [xs[c]], Kv + [E[c]], ys,
                       n0, p0, v0, b0)
  {
    KeepOneMore(K, xs, c);
    KeepOneMore(Kv, E, c);
    DedupedStep(E, c);
    assert (Kv + [E[c]])[..|Kv|] == Kv == Kv[..|Kv| - 1] + [E[c - 1]];
  }

  /** unique() erasing the node after `first` at position |K| of ys, which holds the same
      value: n2/p2/v2 are the maps after the erase and ys2 the ring. */
  lemma DedupingErase<T>(n1: map<int, int>, p1: map<int, int>, v1: map<int, T>,
                         n2: map<int, int>, p2: map<int, int>, v2: map<int, T>, brk: int,
                         d: int, xs: seq<int>, E: seq<T>, c: int, K: seq<int>,
                         Kv: seq<T>, ys: seq<int>, n0: map<int, int>, p0: map<int, int>,
                         v0: map<int, T>, b0: int, ys2: seq<int>)
    requires DedupingIn(n1, p1, v1, brk, d, xs, E, c, K, Kv, ys, n0, p0, v0, b0)
    requires c < |xs| && E[c - 1] == E[c]
    requires Below(n2, brk) && Below(p2, brk) && Below(v2, brk)
    requires IsList(n2, p2, d, ys2) && Holds(v2, ys2) && ys2 == ys[..|K|] + ys[|K| + 1..]
    requires Elements(v2, ys2) == Elements(v1, ys)[..|K|] + Elements(v1, ys)[|K| + 1..]
    requires NodeSet(d, ys2) == NodeSet(d, ys) - {ys[|K|]}
    requires Agree(n1, n2, NodeSet(d, ys)) && Agree(p1, p2, NodeSet(d, ys)) && Agree(v1, v2, NodeSet(d, ys))
    ensures DedupingIn(n2, p2, v2, brk, d, xs, E, c + 1, K, Kv, ys2, n0, p0, v0, b0)
  {
    AgreeTrans(n0, n1, n2, NodeSet(d, xs), NodeSet(d, ys));
    AgreeTrans(p0, p1, p2, NodeSet(d, xs), NodeSet(d, ys));
    AgreeTrans(v0, v1, v2, NodeSet(d, xs), NodeSet(d, ys));
    DropAfter(K, xs, c);
    DropAfter(Kv, E, c);
    DedupedStep(E, c);
  }

  /** The node remove(v) looks at next is position |K| of ys, which holds E[c]. */
  lemma RemovingAt<T>(nx: map<int, int>, pv: map<int, int>, data: map<int, T>, brk: int,
                      d: int, xs: seq<int>, E: seq<T>, v: T, c: int, K: seq<int>,
                      Kv: seq<T>, ys: seq<int>, n0: map<int, int>, p0: map<int, int>,
                      v0: map<int, T>, b0: int)
    requires RemovingIn(nx, pv, data, brk, d, xs, E, v, c, K, Kv, ys, n0, p0, v0, b0)
    requires At(d, ys, |K|) != d
    ensures c < |xs| && |K| < |ys| && ys[|K|] == xs[c] && ys[|K|] in data && data[ys[|K|]] == E[c]
  {
    assert Elements(data, ys)[|K|] == (Kv + E[c..])[|K|];
  }

  /** remove(v) is done when position |K| is the dummy. */
  lemma RemovingDone<T>(nx: map<int, int>, pv: map<int, int>, data: map<int, T>, brk: int,
                        d: int, xs: seq<int>, E: seq<T>, v: T, c: int, K: seq<int>,
                        Kv: seq<T>, ys: seq<int>, n0: map<int, int>, p0: map<int, int>,
                        v0: map<int, T>, b0: int)
    requires RemovingIn(nx, pv, data, brk, d, xs, E, v, c, K, Kv, ys, n0, p0, v0, b0)
    requires At(d, ys, |K|) == d
    ensures Elements(data, ys) == Removed(E, v)
  {
    if |K| < |ys| {
      AtDistinct(d, ys, |K|, |ys|);
    }
    assert E[c..] == [];
  }

  /** The nodes unique() compares next are positions |K| - 1 and |K| of ys, which hold
      E[c - 1] and E[c]. */
  lemma DedupingAt<T>(nx: map<int, int>, pv: map<int, int>, data: map<int, T>, brk: int,
                      d: int, xs: seq<int>, E: seq<T>, c: int, K: seq<int>,
                      Kv: seq<T>, ys: seq<int>, n0: map<int, int>, p0: map<int, int>,
                      v0: map<int, T>, b0: int)
    requires DedupingIn(nx, pv, data, brk, d, xs, E, c, K, Kv, ys, n0, p0, v0, b0)
    requires At(d, ys, |K|) != d
    ensures c < |xs| && |K| < |ys| && ys[|K|] == xs[c] && ys[|K|] in data && data[ys[|K|]] == E[c]
    ensures ys[|K| - 1] in data && data[ys[|K| - 1]] == E[c - 1]
  {
    assert Elements(data, ys)[|K|] == (Kv + E[c..])[|K|];
    assert Elements(data, ys)[|K| - 1] == (Kv + E[c..])[|K| - 1];
  }

  /** unique() is done when position |K| is the dummy. */
  lemma DedupingDone<T>(nx: map<int, int>, pv: map<int, int>, data: map<int, T>, brk: int,
                        d: int, xs: seq<int>, E: seq<T>, c: int, K: seq<int>,
                        Kv: seq<T>, ys: seq<int>, n0: map<int, int>, p0: map<int, int>,
                        v0: map<int, T>, b0: int)
    requires DedupingIn(nx, pv, data, brk, d, xs, E, c, K, Kv, ys, n0, p0, v0, b0)
    requires At(d, ys, |K|) == d
    ensures Elements(data, ys) == Deduped(E)
  {
    if |K| < |ys| {
      AtDistinct(d, ys, |K|, |ys|);
    }
    assert E[c..] == [] && E[c - 1..] == [E[c - 1]];
    assert Kv[..|Kv| - 1] + [Kv[|Kv| - 1]] == Kv;
  }

  /** A run of one list pasted into another carries its values along. */
  lemma ElementsBetween<T>(data: map<int, T>, xs: seq<int>, k: int, ys: seq<int>, i: int, j: int)
    requires Holds(data, xs) && Holds(data, ys) && 0 <= k <= |xs| && 0 <= i <= j <= |ys|
    ensures Holds(data, xs[..k] + ys[i..j] + xs[k..]) && Holds(data, ys[..i] + ys[j..])
    ensures Elements(data, xs[..k] + ys[i..j] + xs[k..])
         == Elements(data, xs)[..k] + Elements(data, ys)[i..j] + Elements(data, xs)[k..]
    ensures Elements(data, ys[..i] + ys[j..]) == Elements(data, ys)[..i] + Elements(data, ys)[j..]
  {
    ElementsSlice(data, xs, 0, k);
    ElementsSlice(data, xs, k, |xs|);
    ElementsSlice(data, ys, 0, i);
    ElementsSlice(data, ys, i, j);
    ElementsSlice(data, ys, j, |ys|);
    ElementsConcat(data, xs[..k], ys[i..j]);
    ElementsConcat(data, xs[..k] + ys[i..j], xs[k..]);
    ElementsConcat(data, ys[..i], ys[j..]);
  }

  /** Moving an empty run changes nothing. */
  lemma MovedEmpty<X>(xs: seq<X>, i: int, k: int)
    requires 0 <= i <= |xs| && 0 <= k <= |xs|
    ensures Moved(xs, i, i, k) == xs
  {
    if k <= i {
      assert xs[..k] + xs[k..i] == xs[..i];
    } else {
      assert xs[..i] + xs[i..k] == xs[..k];
    }
  }

  /** The nodes of all lists: `nx`, `pv` and `data` are the `next`, `prev` and `data`
      fields of the node at each address, and `brk` is the next address get_node hands
      out (every address in use is below it). */
  class Nodes<T(==)> {
    var nx: map<int, int>
    var pv: map<int, int>
    var data: map<int, T>
    var brk: int

    ghost predicate Valid()
      reads this
    {
      Below(nx, brk) && Below(pv, brk) && Below(data, brk)
    }

    /** d and xs form a list whose elements all hold values. */
    ghost predicate ListOk(d: int, xs: seq<int>)
      reads this
    {
      IsList(nx, pv, d, xs) && Holds(data, xs)
    }

    constructor ()
      ensures Valid() && nx == map[] && pv == map[] && data == map[]
    {
      nx, pv, data, brk := map[], map[], map[], 0;
    }

    /** get_node: an address no node uses. */
    method GetNode() returns (a: int)
      requires Valid()
      modifies this`brk
      ensures Valid() && a !in nx && a !in pv && a !in data && a == old(brk) && brk == a + 1
    {
      a := brk;
      brk := brk + 1;
    }

    /** list::initialize: a dummy node whose prev and next are itself is the empty list. */
    method Initialize() returns (d: int)
      requires Valid()
      modifies this
      ensures Valid() && ListOk(d, [])
      ensures d !in old(nx) && d !in old(pv) && d !in old(data) && old(brk) <= d < brk
      ensures Agree(old(nx), nx, {}) && Agree(old(pv), pv, {}) && data == old(data)
    {
      d := GetNode();
      nx := nx[d := d];
      pv := pv[d := d];
      assert Linked(nx, pv, d, [], 0);
    }

    /** empty(): the list is empty iff the dummy's next is the dummy. */
    function Empty(d: int, ghost xs: seq<int>): (r: bool)
      reads this
      requires IsList(nx, pv, d, xs)
      ensures r <==> xs == []
    {
      SelfLoop(nx, pv, d, xs);
      nx[d] == d
    }

    /** size(): the number of steps from begin() to end(). */
    method Size(d: int, ghost xs: seq<int>) returns (r: nat)
      requires IsList(nx, pv, d, xs)
      ensures r == |xs|
    {
      RingKeys(nx, pv, d, xs, |xs|);
      var cur := nx[d];
      r := 0;
      while cur != d
        invariant r <= |xs| && cur == At(d, xs, r)
        decreases |xs| - r
      {
        RingKeys(nx, pv, d, xs, r);
        cur := nx[cur];
        r := r + 1;
      }
      if r < |xs| {
        AtDistinct(d, xs, r, |xs|);
      }
    }

    /** insert(pos, val): a new node holding val is linked in just before position k and
        returned; every other node keeps its place and its value. */
    method Insert(d: int, ghost xs: seq<int>, pos: int, ghost k: int, val: T)
      returns (tmp: int, ghost ys: seq<int>)
      requires Valid() && ListOk(d, xs) && 0 <= k <= |xs| && pos == At(d, xs, k)
      modifies this
      ensures Valid() && ListOk(d, ys) && ys == xs[..k] + [tmp] + xs[k..]
      ensures Elements(data, ys) == old(Elements(data, xs)[..k]) + [val] + old(Elements(data, xs)[k..])
      ensures tmp !in old(nx) && tmp !in old(pv) && tmp !in old(data)
      ensures tmp == old(brk) && brk == old(brk) + 1
      ensures NodeSet(d, ys) == NodeSet(d, xs) + {tmp}
      ensures Agree(old(nx), nx, NodeSet(d, xs)) && Agree(old(pv), pv, NodeSet(d, xs))
      ensures Agree(old(data), data, {})
    {
      ghost var n0, p0, v0 := nx, pv, data;
      RingKeys(nx, pv, d, xs, k);
      RingKeys(nx, pv, d, xs, Pred(xs, k));
      tmp := GetNode();
      data := data[tmp := val];
      var prev := pv[pos];
      nx := nx[tmp := pos];
      pv := pv[tmp := prev];
      pv := pv[pos := tmp];
      nx := nx[prev := tmp];
      ys := xs[..k] + [tmp] + xs[k..];
      InsertLinks(n0, p0, v0, d, xs, k, tmp, val, nx, pv, data, ys);
      BelowUpdate(v0, tmp, val, brk, brk);
      BelowUpdate(n0, tmp, pos, brk, brk);
      BelowUpdate(n0[tmp := pos], prev, tmp, brk, brk);
      BelowUpdate(p0, tmp, prev, brk, brk);
      BelowUpdate(p0[tmp := prev], pos, tmp, brk, brk);
    }

    /** erase(pos): the node at position k is unlinked and freed, and the returned
        iterator is its old successor. */
    method Erase(d: int, ghost xs: seq<int>, pos: int, ghost k: int)
      returns (next: int, ghost ys: seq<int>)
      requires Valid() && ListOk(d, xs) && 0 <= k < |xs| && pos == xs[k]
      modifies this
      ensures Valid() && ListOk(d, ys) && ys == xs[..k] + xs[k + 1..] && next == At(d, ys, k)
      ensures Elements(data, ys) == old(Elements(data, xs)[..k]) + old(Elements(data, xs)[k + 1..])
      ensures pos !in nx && pos !in pv && pos !in data
      ensures NodeSet(d, ys) == NodeSet(d, xs) - {pos}
      ensures Agree(old(nx), nx, NodeSet(d, xs)) && Agree(old(pv), pv, NodeSet(d, xs))
      ensures Agree(old(data), data, NodeSet(d, xs)) && brk == old(brk)
    {
      ghost var n0, p0, v0 := nx, pv, data;
      RingKeys(nx, pv, d, xs, k);
      RingKeys(nx, pv, d, xs, Pred(xs, k));
      RingKeys(nx, pv, d, xs, k + 1);
      var prev := pv[pos];
      next := nx[pos];
      nx := nx[prev := next] - {pos};
      pv := pv[next := prev] - {pos};
      data := data - {pos};
      ys := xs[..k] + xs[k + 1..];
      EraseLinks(n0, p0, v0, d, xs, k, nx, pv, data, ys);
      BelowUpdate(n0, prev, next, brk, brk);
      BelowUpdate(n0[prev := next], pos, next, brk, brk);
      BelowUpdate(p0, next, prev, brk, brk);
      BelowUpdate(p0[next := prev], pos, prev, brk, brk);
      BelowUpdate(v0, pos, v0[pos], brk, brk);
    }

    /** Nothing outside S differs from the snapshot n0/p0/v0. */
    ghost predicate Untouched(n0: map<int, int>, p0: map<int, int>, v0: map<int, T>, S: set<int>)
      reads this
    {
      Agree(n0, nx, S) && Agree(p0, pv, S) && Agree(v0, data, S)
    }

    ghost predicate ValidIn(nx: map<int, int>, pv: map<int, int>, data: map<int, T>, brk: int)
    {
      Below(nx, brk) && Below(pv, brk) && Below(data, brk)
    }

    /** The state of erase(first, last) once the nodes at positions [i, c) of xs are gone. */
    ghost predicate Erasing(d: int, xs: seq<int>, E: seq<T>, i: int, c: int, ys: seq<int>,
                            n0: map<int, int>, p0: map<int, int>, v0: map<int, T>, b0: int)
      reads this
    {
      ErasingIn(nx, pv, data, brk, d, xs, E, i, c, ys, n0, p0, v0, b0)
    }

    /** One round of erase(first++). */
    method EraseStep(d: int, ghost xs: seq<int>, ghost E: seq<T>, ghost i: int, ghost c: int,
                     ghost ys: seq<int>, ghost n0: map<int, int>, ghost p0: map<int, int>,
                     ghost v0: map<int, T>, ghost b0: int, cur: int)
      returns (next: int, ghost ys2: seq<int>)
      requires Erasing(d, xs, E, i, c, ys, n0, p0, v0, b0) && c < |xs| && cur == At(d, ys, i)
      modifies this
      ensures Erasing(d, xs, E, i, c + 1, ys2, n0, p0, v0, b0) && next == At(d, ys2, i)
      ensures next == At(d, xs, c + 1)
    {
      ghost var n1, p1, v1 := nx, pv, data;
      AtCut(d, xs, i, c, i);
      next, ys2 := Erase(d, ys, cur, i);
      ErasingNext(n1, p1, v1, nx, pv, data, brk, d, xs, E, i, c, ys, n0, p0, v0, b0, ys2);
    }

    /** erase(first, last): positions [i, j) are erased one at a time, and last is
        returned. */
    method EraseRange(d: int, ghost xs: seq<int>, first: int, ghost i: int, last: int, ghost j: int)
      returns (r: int, ghost ys: seq<int>)
      requires Valid() && ListOk(d, xs) && 0 <= i <= j <= |xs|
      requires first == At(d, xs, i) && last == At(d, xs, j)
      modifies this
      ensures Valid() && ListOk(d, ys) && ys == xs[..i] + xs[j..] && r == last && r == At(d, ys, i)
      ensures Elements(data, ys) == old(Elements(data, xs)[..i]) + old(Elements(data, xs)[j..])
      ensures NodeSet(d, ys) <= NodeSet(d, xs)
      ensures Untouched(old(nx), old(pv), old(data), NodeSet(d, xs)) && brk == old(brk)
    {
      ghost var n0, p0, v0, b0 := nx, pv, data, brk;
      ghost var E := Elements(data, xs);
      StartErasing(nx, pv, data, brk, d, xs, i);
      ys := xs;
      var cur := first;
      ghost var c := i;
      while cur != last
        invariant Erasing(d, xs, E, i, c, ys, n0, p0, v0, b0) && c <= j
        invariant cur == At(d, ys, i) && cur == At(d, xs, c)
        decreases j - c
      {
        if c == j {
          assert false;
        }
        cur, ys := EraseStep(d, xs, E, i, c, ys, n0, p0, v0, b0, cur);
        c := c + 1;
      }
      if c < j {
        AtDistinct(d, xs, c, j);
      }
      r := last;
    }

    /** The state of a run of inserts before pos once the nodes `added` hold the first
        |added| values of V. */
    ghost predicate Inserting(d: int, xs: seq<int>, E: seq<T>, k: int, V: seq<T>, added: seq<int>,
                              ys: seq<int>, n0: map<int, int>, p0: map<int, int>, v0: map<int, T>,
                              b0: int, pos: int)
      reads this
    {
      InsertingIn(nx, pv, data, brk, d, xs, E, k, V, added, ys, n0, p0, v0, b0, pos)
    }

    /** One insert(pos, V[|added|]) of the run. */
    method InsertStep(d: int, ghost xs: seq<int>, ghost E: seq<T>, ghost k: int, ghost V: seq<T>,
                      ghost added: seq<int>, ghost ys: seq<int>, ghost n0: map<int, int>,
                      ghost p0: map<int, int>, ghost v0: map<int, T>, ghost b0: int,
                      pos: int, val: T)
      returns (t: int, ghost ys2: seq<int>)
      requires Inserting(d, xs, E, k, V, added, ys, n0, p0, v0, b0, pos)
      requires |added| < |V| && V[|added|] == val
      modifies this
      ensures Inserting(d, xs, E, k, V, added + [t], ys2, n0, p0, v0, b0, pos)
      ensures ys2[k] == if added == [] then t else added[0]
    {
      ghost var n1, p1, v1, b1 := nx, pv, data, brk;
      AtPaste(d, xs, k, added, k + |added|);
      t, ys2 := Insert(d, ys, pos, k + |added|, val);
      InsertingNext(n1, p1, v1, b1, nx, pv, data, brk, d, xs, E, k, V, added, ys, n0, p0, v0, b0,
                    pos, t, ys2, val);
    }

    /** The state before the first of a run of inserts. */
    lemma StartInserting(d: int, xs: seq<int>, k: int, V: seq<T>, pos: int)
      requires Valid() && ListOk(d, xs) && 0 <= k <= |xs| && pos == At(d, xs, k)
      ensures Inserting(d, xs, Elements(data, xs), k, V, [], xs, nx, pv, data, brk, pos)
    {
      assert xs[..k] + [] + xs[k..] == xs;
      var E := Elements(data, xs);
      assert E[..k] + V[..0] + E[k..] == E;
      assert NodeSet(d, xs) == NodeSet(d, xs) + (set a: int | a in []);
    }

    /** fill_insert(pos, n, val): n copies of val go in just before position k; the first
        of them is returned, or pos when n is 0. */
    method FillInsert(d: int, ghost xs: seq<int>, pos: int, ghost k: int, n: nat, val: T)
      returns (res: int, ghost ys: seq<int>, ghost added: seq<int>)
      requires Valid() && ListOk(d, xs) && 0 <= k <= |xs| && pos == At(d, xs, k)
      modifies this
      ensures Inserting(d, xs, old(Elements(data, xs)), k, seq(n, _ => val), added, ys,
                        old(nx), old(pv), old(data), old(brk), pos)
      ensures |added| == n && res == At(d, ys, k)
    {
      ghost var V := seq(n, _ => val);
      StartInserting(d, xs, k, V, pos);
      ghost var E, n0, p0, v0, b0 := Elements(data, xs), nx, pv, data, brk;
      if n == 0 {
        return pos, xs, [];
      }
      var t;
      t, ys := InsertStep(d, xs, E, k, V, [], xs, n0, p0, v0, b0, pos, val);
      res := t;
      added := [t];
      assert [] + [t] == added;
      var m := n - 1;
      while m > 0
        invariant Inserting(d, xs, E, k, V, added, ys, n0, p0, v0, b0, pos)
        invariant |added| == n - m && ys[k] == res
      {
        t, ys := InsertStep(d, xs, E, k, V, added, ys, n0, p0, v0, b0, pos, val);
        added := added + [t];
        m := m - 1;
      }
    }

    /** insert(pos, first, last) over an input range: the values vals go in, in order,
        just before position k; the first new node is returned, or pos when the range is
        empty. */
    method InsertRange(d: int, ghost xs: seq<int>, pos: int, ghost k: int, vals: seq<T>)
      returns (res: int, ghost ys: seq<int>, ghost added: seq<int>)
      requires Valid() && ListOk(d, xs) && 0 <= k <= |xs| && pos == At(d, xs, k)
      modifies this
      ensures Inserting(d, xs, old(Elements(data, xs)), k, vals, added, ys,
                        old(nx), old(pv), old(data), old(brk), pos)
      ensures |added| == |vals| && res == At(d, ys, k)
    {
      StartInserting(d, xs, k, vals, pos);
      ghost var E, n0, p0, v0, b0 := Elements(data, xs), nx, pv, data, brk;
      if vals == [] {
        return pos, xs, [];
      }
      var t;
      t, ys := InsertStep(d, xs, E, k, vals, [], xs, n0, p0, v0, b0, pos, vals[0]);
      res := t;
      added := [t];
      assert [] + [t] == added;
      var first := 1;
      while first != |vals|
        invariant Inserting(d, xs, E, k, vals, added, ys, n0, p0, v0, b0, pos)
        invariant |added| == first && ys[k] == res
        decreases |vals| - first
      {
        t, ys := InsertStep(d, xs, E, k, vals, added, ys, n0, p0, v0, b0, pos, vals[first]);
        added := added + [t];
        first := first + 1;
      }
    }

    /** resize(new_sz, val): the list keeps its first new_sz values, or is padded at the
        back with copies of val up to new_sz values. */
    method Resize(d: int, ghost xs: seq<int>, newSize: nat, val: T) returns (ghost ys: seq<int>)
      requires Valid() && ListOk(d, xs)
      modifies this
      ensures Valid() && ListOk(d, ys)
      ensures newSize <= |xs| ==> Elements(data, ys) == old(Elements(data, xs))[..newSize]
      ensures |xs| < newSize ==>
                Elements(data, ys) == old(Elements(data, xs)) + seq(newSize - |xs|, _ => val)
      ensures Agree(old(nx), nx, NodeSet(d, xs)) && Agree(old(pv), pv, NodeSet(d, xs))
      ensures Agree(old(data), data, NodeSet(d, xs)) && old(brk) <= brk
    {
      ghost var E := Elements(data, xs);
      RingKeys(nx, pv, d, xs, |xs|);
      var cur := nx[d];
      var n: nat := newSize;
      ghost var c := 0;
      while cur != d && n > 0
        invariant c <= |xs| && cur == At(d, xs, c) && n + c == newSize
        modifies {}
        decreases n
      {
        RingKeys(nx, pv, d, xs, c);
        cur := nx[cur];
        n := n - 1;
        c := c + 1;
      }
      if n == 0 {
        var r;
        r, ys := EraseRange(d, xs, cur, c, d, |xs|);
        assert E[|xs|..] == [];
      } else {
        if c < |xs| {
          AtDistinct(d, xs, c, |xs|);
        }
        var r;
        ghost var added;
        r, ys, added := FillInsert(d, xs, cur, c, n, val);
        assert E[..|xs|] == E && E[|xs|..] == [];
        assert seq(n, _ => val)[..n] == seq(n, _ => val);
      }
    }

    /** The state of remove(v) once positions [0, c) of xs are done. */
    ghost predicate Removing(d: int, xs: seq<int>, E: seq<T>, v: T, c: int, K: seq<int>,
                             Kv: seq<T>, ys: seq<int>, n0: map<int, int>, p0: map<int, int>,
                             v0: map<int, T>, b0: int)
      reads this
    {
      RemovingIn(nx, pv, data, brk, d, xs, E, v, c, K, Kv, ys, n0, p0, v0, b0)
    }

    /** One round of remove(v): the node `first` at position |K| of ys is erased when it
        holds v, and its old successor is returned. */
    method RemoveStep(d: int, ghost xs: seq<int>, ghost E: seq<T>, val: T, ghost c: int,
                      ghost K: seq<int>, ghost Kv: seq<T>, ghost ys: seq<int>,
                      ghost n0: map<int, int>, ghost p0: map<int, int>, ghost v0: map<int, T>,
                      ghost b0: int, first: int)
      returns (next: int, ghost K2: seq<int>, ghost Kv2: seq<T>, ghost ys2: seq<int>)
      requires Removing(d, xs, E, val, c, K, Kv, ys, n0, p0, v0, b0)
      requires first == At(d, ys, |K|) && first != d
      modifies this
      ensures Removing(d, xs, E, val, c + 1, K2, Kv2, ys2, n0, p0, v0, b0)
      ensures next == At(d, ys2, |K2|)
    {
      RemovingAt(nx, pv, data, brk, d, xs, E, val, c, K, Kv, ys, n0, p0, v0, b0);
      RingKeys(nx, pv, d, ys, |K|);
      next := nx[first];
      if data[first] == val {
        ghost var n1, p1, v1 := nx, pv, data;
        var gone;
        gone, ys2 := Erase(d, ys, first, |K|);
        RemovingErase(n1, p1, v1, nx, pv, data, brk, d, xs, E, val, c, K, Kv, ys, n0, p0, v0, b0, ys2);
        K2, Kv2 := K, Kv;
      } else {
        RemovingKeep(nx, pv, data, brk, d, xs, E, val, c, K, Kv, ys, n0, p0, v0, b0);
        K2, Kv2, ys2 := K + [first], Kv + [data[first]], ys;
      }
    }

    /** remove(val): every node holding val is erased, and the others keep their order
        and their values. */
    method Remove(d: int, ghost xs: seq<int>, val: T) returns (ghost ys: seq<int>)
      requires Valid() && ListOk(d, xs)
      modifies this
      ensures Valid() && ListOk(d, ys) && Elements(data, ys) == Removed(old(Elements(data, xs)), val)
      ensures NodeSet(d, ys) <= NodeSet(d, xs)
      ensures Untouched(old(nx), old(pv), old(data), NodeSet(d, xs)) && brk == old(brk)
    {
      ghost var n0, p0, v0, b0 := nx, pv, data, brk;
      ghost var E := Elements(data, xs);
      StartRemoving(nx, pv, data, brk, d, xs, val);
      RingKeys(nx, pv, d, xs, |xs|);
      var first := nx[d];
      var last := d;
      ghost var c, K, Kv := 0, [], [];
      ys := xs;
      while first != last
        invariant Removing(d, xs, E, val, c, K, Kv, ys, n0, p0, v0, b0) && first == At(d, ys, |K|)
        decreases |xs| - c
      {
        first, K, Kv, ys := RemoveStep(d, xs, E, val, c, K, Kv, ys, n0, p0, v0, b0, first);
        c := c + 1;
      }
      RemovingDone(nx, pv, data, brk, d, xs, E, val, c, K, Kv, ys, n0, p0, v0, b0);
    }

    /** The state of unique() once position c of xs is next. */
    ghost predicate Deduping(d: int, xs: seq<int>, E: seq<T>, c: int, K: seq<int>, Kv: seq<T>,
                             ys: seq<int>, n0: map<int, int>, p0: map<int, int>,
                             v0: map<int, T>, b0: int)
      reads this
    {
      DedupingIn(nx, pv, data, brk, d, xs, E, c, K, Kv, ys, n0, p0, v0, b0)
    }

    /** The erasing half of a round of unique(): next holds the same value as first. */
    method EraseDuplicate(d: int, ghost xs: seq<int>, ghost E: seq<T>, ghost c: int,
                          ghost K: seq<int>, ghost Kv: seq<T>, ghost ys: seq<int>,
                          ghost n0: map<int, int>, ghost p0: map<int, int>, ghost v0: map<int, T>,
                          ghost b0: int, first: int, next: int) returns (ghost ys2: seq<int>)
      requires Deduping(d, xs, E, c, K, Kv, ys, n0, p0, v0, b0)
      requires first == At(d, ys, |K| - 1) && next == At(d, ys, |K|) && next != d
      requires first in data && next in data && data[first] == data[next]
      modifies this
      ensures Deduping(d, xs, E, c + 1, K, Kv, ys2, n0, p0, v0, b0)
      ensures first == At(d, ys2, |K| - 1) && first in nx && nx[first] == At(d, ys2, |K|)
    {
      DedupingAt(nx, pv, data, brk, d, xs, E, c, K, Kv, ys, n0, p0, v0, b0);
      ghost var n1, p1, v1 := nx, pv, data;
      var gone;
      gone, ys2 := Erase(d, ys, next, |K|);
      DedupingErase(n1, p1, v1, nx, pv, data, brk, d, xs, E, c, K, Kv, ys, n0, p0, v0, b0, ys2);
      AtCut(d, ys, |K|, |K| + 1, |K| - 1);
      RingKeys(nx, pv, d, ys2, |K| - 1);
    }

    /** One round of unique(): next is erased when it holds the same value as first, and
        otherwise becomes first. */
    method UniqueStep(d: int, ghost xs: seq<int>, ghost E: seq<T>, ghost c: int,
                      ghost K: seq<int>, ghost Kv: seq<T>, ghost ys: seq<int>,
                      ghost n0: map<int, int>, ghost p0: map<int, int>, ghost v0: map<int, T>,
                      ghost b0: int, first: int, next: int)
      returns (first2: int, next2: int, ghost K2: seq<int>, ghost Kv2: seq<T>, ghost ys2: seq<int>)
      requires Deduping(d, xs, E, c, K, Kv, ys, n0, p0, v0, b0)
      requires first == At(d, ys, |K| - 1) && next == At(d, ys, |K|) && next != d
      modifies this
      ensures Deduping(d, xs, E, c + 1, K2, Kv2, ys2, n0, p0, v0, b0)
      ensures first2 == At(d, ys2, |K2| - 1) && next2 == At(d, ys2, |K2|)
    {
      DedupingAt(nx, pv, data, brk, d, xs, E, c, K, Kv, ys, n0, p0, v0, b0);
      if data[first] == data[next] {
        ys2 := EraseDuplicate(d, xs, E, c, K, Kv, ys, n0, p0, v0, b0, first, next);
        K2, Kv2 := K, Kv;
        first2 := first;
      } else {
        DedupingKeep(nx, pv, data, brk, d, xs, E, c, K, Kv, ys, n0, p0, v0, b0);
        K2, Kv2, ys2 := K + [next], Kv + [data[next]], ys;
        first2 := next;
        RingKeys(nx, pv, d, ys, |K|);
      }
      next2 := nx[first2];
    }

    /** unique(): each node holding the same value as its predecessor is erased. */
    method Unique(d: int, ghost xs: seq<int>) returns (ghost ys: seq<int>)
      requires Valid() && ListOk(d, xs)
      modifies this
      ensures Valid() && ListOk(d, ys) && Elements(data, ys) == Deduped(old(Elements(data, xs)))
      ensures NodeSet(d, ys) <= NodeSet(d, xs)
      ensures Untouched(old(nx), old(pv), old(data), NodeSet(d, xs)) && brk == old(brk)
    {
      ghost var n0, p0, v0, b0 := nx, pv, data, brk;
      ghost var E := Elements(data, xs);
      RingKeys(nx, pv, d, xs, |xs|);
      var first := nx[d];
      var last := d;
      if first == last {
        if xs != [] {
          AtDistinct(d, xs, 0, |xs|);
        }
        return xs;
      }
      StartDeduping(nx, pv, data, brk, d, xs);
      RingKeys(nx, pv, d, xs, 0);
      var next := nx[first];
      ghost var c, K, Kv := 1, [xs[0]], [data[xs[0]]];
      ys := xs;
      while next != last
        invariant Deduping(d, xs, E, c, K, Kv, ys, n0, p0, v0, b0)
        invariant first == At(d, ys, |K| - 1) && next == At(d, ys, |K|)
        decreases |xs| - c
      {
        first, next, K, Kv, ys := UniqueStep(d, xs, E, c, K, Kv, ys, n0, p0, v0, b0, first, next);
        c := c + 1;
      }
      DedupingDone(nx, pv, data, brk, d, xs, E, c, K, Kv, ys, n0, p0, v0, b0);
    }

    /** reverse(): prev and next are exchanged on every node of the ring, the dummy first,
        so that the list reads backwards. */
    method Reverse(d: int, ghost xs: seq<int>) returns (ghost ys: seq<int>)
      requires Valid() && ListOk(d, xs)
      modifies this`nx, this`pv
      ensures Valid() && ListOk(d, ys) && ys == ForwardList.Reversed(xs)
      ensures Elements(data, ys) == ForwardList.Reversed(Elements(data, xs))
      ensures NodeSet(d, ys) == NodeSet(d, xs)
      ensures Agree(old(nx), nx, NodeSet(d, xs)) && Agree(old(pv), pv, NodeSet(d, xs))
    {
      ghost var n0, p0 := nx, pv;
      StartReversing(nx, pv, d, xs);
      RingKeys(nx, pv, d, xs, |xs|);
      var tmp := d;
      // The do-while loop: its first round is on the dummy.
      var a := nx[tmp];
      nx := nx[tmp := pv[tmp]];
      pv := pv[tmp := a];
      tmp := pv[tmp];
      ghost var c := 0;
      while tmp != d
        invariant ReversingIn(n0, p0, nx, pv, d, xs, c) && tmp == At(d, xs, c)
        decreases |xs| - c
      {
        ReversingNext(n0, p0, nx, pv, d, xs, c);
        a := nx[tmp];
        nx := nx[tmp := pv[tmp]];
        pv := pv[tmp := a];
        tmp := pv[tmp];
        c := c + 1;
      }
      if c < |xs| {
        AtDistinct(d, xs, c, |xs|);
      }
      ReverseRing(n0, p0, nx, pv, d, xs);
      ElementsReversed(data, xs);
      ys := ForwardList.Reversed(xs);
    }

    /** The six stores of transfer(pos, first, last) once pos != last: the run from first
        up to last is unhooked from between its neighbours and hooked in before pos. */
    method Relink(pos: int, first: int, last: int)
      requires Valid() && pos != last && first in pv && last in pv && pos in pv
      requires pv[first] in nx && pv[last] in nx && pv[pos] in nx
      modifies this`nx, this`pv
      ensures Valid()
      ensures nx == old(nx)[old(pv[first]) := last][old(pv[pos]) := first][old(pv[last]) := pos]
      ensures pv == old(pv)[last := old(pv[first])][first := old(pv[pos])][pos := old(pv[last])]
    {
      var tmp := pv[last];
      nx := nx[pv[first] := last];
      pv := pv[last := pv[first]];
      nx := nx[pv[pos] := first];
      pv := pv[first := pv[pos]];
      nx := nx[tmp := pos];
      pv := pv[pos := tmp];
    }

    /** transfer(pos, first, last) inside one list: the run [i, j) moves, in order, to just
        before position k, which is not inside the run; nothing happens when pos is last. */
    method TransferWithin(d: int, ghost xs: seq<int>, pos: int, ghost k: int, first: int,
                          ghost i: int, last: int, ghost j: int) returns (ghost ys: seq<int>)
      requires Valid() && ListOk(d, xs) && 0 <= i < j <= |xs| && 0 <= k <= |xs| && (k < i || j <= k)
      requires pos == At(d, xs, k) && first == xs[i] && last == At(d, xs, j)
      modifies this`nx, this`pv
      ensures Valid() && ListOk(d, ys) && ys == Moved(xs, i, j, k)
      ensures Elements(data, ys) == Moved(Elements(data, xs), i, j, k)
      ensures NodeSet(d, ys) == NodeSet(d, xs)
      ensures Agree(old(nx), nx, NodeSet(d, xs)) && Agree(old(pv), pv, NodeSet(d, xs))
      ensures k == j ==> nx == old(nx) && pv == old(pv)
    {
      ElementsMoved(data, xs, i, j, k);
      if pos != last {
        ghost var n0, p0 := nx, pv;
        RingKeys(nx, pv, d, xs, i);
        RingKeys(nx, pv, d, xs, j);
        RingKeys(nx, pv, d, xs, k);
        RingKeys(nx, pv, d, xs, Pred(xs, i));
        RingKeys(nx, pv, d, xs, Pred(xs, j));
        RingKeys(nx, pv, d, xs, Pred(xs, k));
        Relink(pos, first, last);
        TransferWithinRing(n0, p0, n0[At(d, xs, Pred(xs, i)) := last], p0[last := At(d, xs, Pred(xs, i))],
                           nx, pv, d, xs, i, j, k);
        TransferWithinFrame(n0, p0, nx, pv, d, xs, i, j, k);
        ys := Moved(xs, i, j, k);
      } else {
        if k != j {
          AtDistinct(d, xs, k, j);
        }
        MovedInPlace(xs, i, j);
        ys := xs;
      }
    }

    /** transfer(pos, first, last) from another list: the run [i, j) of the list d2/ys
        moves, in order, to just before position k of the list d/xs. */
    method TransferBetween(d: int, ghost xs: seq<int>, pos: int, ghost k: int, d2: int,
                           ghost ys: seq<int>, first: int, ghost i: int, last: int, ghost j: int)
      returns (ghost xs2: seq<int>, ghost ys2: seq<int>)
      requires Valid() && ListOk(d, xs) && ListOk(d2, ys) && NodeSet(d, xs) !! NodeSet(d2, ys)
      requires 0 <= k <= |xs| && 0 <= i < j <= |ys|
      requires pos == At(d, xs, k) && first == ys[i] && last == At(d2, ys, j)
      modifies this`nx, this`pv
      ensures Valid() && ListOk(d, xs2) && ListOk(d2, ys2)
      ensures xs2 == xs[..k] + ys[i..j] + xs[k..] && ys2 == ys[..i] + ys[j..]
      ensures Elements(data, xs2)
           == Elements(data, xs)[..k] + Elements(data, ys)[i..j] + Elements(data, xs)[k..]
      ensures Elements(data, ys2) == Elements(data, ys)[..i] + Elements(data, ys)[j..]
      ensures NodeSet(d, xs2) !! NodeSet(d2, ys2)
      ensures NodeSet(d, xs2) + NodeSet(d2, ys2) == NodeSet(d, xs) + NodeSet(d2, ys)
      ensures Agree(old(nx), nx, NodeSet(d, xs) + NodeSet(d2, ys))
      ensures Agree(old(pv), pv, NodeSet(d, xs) + NodeSet(d2, ys))
    {
      // pos is a node of this list and last one of the other, so the source's
      // `pos != last` test always passes here.
      ghost var n0, p0 := nx, pv;
      ElementsBetween(data, xs, k, ys, i, j);
      RingKeys(nx, pv, d2, ys, i);
      RingKeys(nx, pv, d2, ys, j);
      RingKeys(nx, pv, d, xs, k);
      AtInNodeSet(d, xs, k);
      AtInNodeSet(d2, ys, j);
      RingKeys(nx, pv, d2, ys, Pred(ys, i));
      RingKeys(nx, pv, d2, ys, Pred(ys, j));
      RingKeys(nx, pv, d, xs, Pred(xs, k));
      Relink(pos, first, last);
      TransferBetweenRings(n0, p0, n0[At(d2, ys, Pred(ys, i)) := last], p0[last := At(d2, ys, Pred(ys, i))],
                           nx, pv, d, xs, k, d2, ys, i, j);
      TransferBetweenFrame(n0, p0, nx, pv, d, xs, k, d2, ys, i, j);
      xs2, ys2 := xs[..k] + ys[i..j] + xs[k..], ys[..i] + ys[j..];
    }

    /** splice(pos, x): all of x moves to just before position k, unless x is empty. */
    method SpliceAll(d: int, ghost xs: seq<int>, pos: int, ghost k: int, d2: int, ghost ys: seq<int>)
      returns (ghost xs2: seq<int>, ghost ys2: seq<int>)
      requires Valid() && ListOk(d, xs) && ListOk(d2, ys) && NodeSet(d, xs) !! NodeSet(d2, ys)
      requires 0 <= k <= |xs| && pos == At(d, xs, k)
      modifies this`nx, this`pv
      ensures Valid() && ListOk(d, xs2) && ListOk(d2, ys2)
      ensures xs2 == xs[..k] + ys + xs[k..] && ys2 == []
      ensures Elements(data, xs2) == Elements(data, xs)[..k] + Elements(data, ys) + Elements(data, xs)[k..]
      ensures NodeSet(d, xs2) !! NodeSet(d2, ys2)
      ensures NodeSet(d, xs2) + NodeSet(d2, ys2) == NodeSet(d, xs) + NodeSet(d2, ys)
      ensures Agree(old(nx), nx, NodeSet(d, xs) + NodeSet(d2, ys))
      ensures Agree(old(pv), pv, NodeSet(d, xs) + NodeSet(d2, ys))
    {
      var e := Empty(d2, ys);
      if !e {
        RingKeys(nx, pv, d2, ys, |ys|);
        xs2, ys2 := TransferBetween(d, xs, pos, k, d2, ys, nx[d2], 0, d2, |ys|);
        assert ys[0..|ys|] == ys && Elements(data, ys)[0..|ys|] == Elements(data, ys);
      } else {
        assert xs[..k] + ys + xs[k..] == xs;
        assert Elements(data, xs)[..k] + Elements(data, ys) + Elements(data, xs)[k..] == Elements(data, xs);
        xs2, ys2 := xs, ys;
      }
    }

    /** splice(pos, x, i) from another list: the node at position i of x moves to just
        before position k. */
    method SpliceOne(d: int, ghost xs: seq<int>, pos: int, ghost k: int, d2: int, ghost ys: seq<int>,
                     it: int, ghost i: int)
      returns (ghost xs2: seq<int>, ghost ys2: seq<int>)
      requires Valid() && ListOk(d, xs) && ListOk(d2, ys) && NodeSet(d, xs) !! NodeSet(d2, ys)
      requires 0 <= k <= |xs| && pos == At(d, xs, k) && 0 <= i < |ys| && it == ys[i]
      modifies this`nx, this`pv
      ensures Valid() && ListOk(d, xs2) && ListOk(d2, ys2)
      ensures xs2 == xs[..k] + [ys[i]] + xs[k..] && ys2 == ys[..i] + ys[i + 1..]
      ensures Elements(data, xs2) == Elements(data, xs)[..k] + [data[ys[i]]] + Elements(data, xs)[k..]
      ensures NodeSet(d, xs2) !! NodeSet(d2, ys2)
      ensures NodeSet(d, xs2) + NodeSet(d2, ys2) == NodeSet(d, xs) + NodeSet(d2, ys)
      ensures Agree(old(nx), nx, NodeSet(d, xs) + NodeSet(d2, ys))
      ensures Agree(old(pv), pv, NodeSet(d, xs) + NodeSet(d2, ys))
    {
      RingKeys(nx, pv, d2, ys, i);
      var j := nx[it];
      // pos is a node of this list, and it and j are nodes of x, so the source's
      // `pos == i || pos == j` test always fails here.
      xs2, ys2 := TransferBetween(d, xs, pos, k, d2, ys, it, i, j, i + 1);
      assert ys[i..i + 1] == [ys[i]] && Elements(data, ys)[i..i + 1] == [data[ys[i]]];
    }

    /** splice(pos, *this, i): the node at position i moves to just before position k;
        nothing happens when pos is i or its successor. */
    method SpliceOneWithin(d: int, ghost xs: seq<int>, pos: int, ghost k: int, it: int, ghost i: int)
      returns (ghost ys: seq<int>)
      requires Valid() && ListOk(d, xs) && 0 <= k <= |xs| && pos == At(d, xs, k)
      requires 0 <= i < |xs| && it == xs[i]
      modifies this`nx, this`pv
      ensures Valid() && ListOk(d, ys) && ys == Moved(xs, i, i + 1, k)
      ensures Elements(data, ys) == Moved(Elements(data, xs), i, i + 1, k)
      ensures (k == i || k == i + 1) ==> ys == xs && nx == old(nx) && pv == old(pv)
      ensures Agree(old(nx), nx, NodeSet(d, xs)) && Agree(old(pv), pv, NodeSet(d, xs))
    {
      RingKeys(nx, pv, d, xs, i);
      var j := nx[it];
      if pos == it || pos == j {
        SplicedInPlace(d, xs, k, i, Elements(data, xs));
        return xs;
      }
      ys := TransferWithin(d, xs, pos, k, it, i, j, i + 1);
    }

    /** splice(pos, x, first, last) from another list: the run [i, j) of x moves, in
        order, to just before position k, unless it is empty. */
    method SpliceRange(d: int, ghost xs: seq<int>, pos: int, ghost k: int, d2: int,
                       ghost ys: seq<int>, first: int, ghost i: int, last: int, ghost j: int)
      returns (ghost xs2: seq<int>, ghost ys2: seq<int>)
      requires Valid() && ListOk(d, xs) && ListOk(d2, ys) && NodeSet(d, xs) !! NodeSet(d2, ys)
      requires 0 <= k <= |xs| && pos == At(d, xs, k)
      requires 0 <= i <= j <= |ys| && first == At(d2, ys, i) && last == At(d2, ys, j)
      modifies this`nx, this`pv
      ensures Valid() && ListOk(d, xs2) && ListOk(d2, ys2)
      ensures xs2 == xs[..k] + ys[i..j] + xs[k..] && ys2 == ys[..i] + ys[j..]
      ensures Elements(data, xs2)
           == Elements(data, xs)[..k] + Elements(data, ys)[i..j] + Elements(data, xs)[k..]
      ensures Elements(data, ys2) == Elements(data, ys)[..i] + Elements(data, ys)[j..]
      ensures NodeSet(d, xs2) !! NodeSet(d2, ys2)
      ensures NodeSet(d, xs2) + NodeSet(d2, ys2) == NodeSet(d, xs) + NodeSet(d2, ys)
      ensures Agree(old(nx), nx, NodeSet(d, xs) + NodeSet(d2, ys))
      ensures Agree(old(pv), pv, NodeSet(d, xs) + NodeSet(d2, ys))
    {
      if first != last {
        xs2, ys2 := TransferBetween(d, xs, pos, k, d2, ys, first, i, last, j);
      } else {
        if i != j {
          AtDistinct(d2, ys, i, j);
        }
        ElementsBetween(data, xs, k, ys, i, i);
        assert xs[..k] + ys[i..i] + xs[k..] == xs && ys[..i] + ys[i..] == ys;
        assert Elements(data, ys)[..i] + Elements(data, ys)[i..] == Elements(data, ys);
        xs2, ys2 := xs, ys;
      }
    }

    /** splice(pos, *this, first, last): the run [i, j) moves, in order, to just before
        position k, which is not inside it, unless the run is empty. */
    method SpliceRangeWithin(d: int, ghost xs: seq<int>, pos: int, ghost k: int, first: int,
                             ghost i: int, last: int, ghost j: int) returns (ghost ys: seq<int>)
      requires Valid() && ListOk(d, xs) && 0 <= k <= |xs| && pos == At(d, xs, k)
      requires 0 <= i <= j <= |xs| && first == At(d, xs, i) && last == At(d, xs, j)
      requires k < i || j <= k
      modifies this`nx, this`pv
      ensures Valid() && ListOk(d, ys) && ys == Moved(xs, i, j, k)
      ensures Elements(data, ys) == Moved(Elements(data, xs), i, j, k)
      ensures Agree(old(nx), nx, NodeSet(d, xs)) && Agree(old(pv), pv, NodeSet(d, xs))
    {
      if first != last {
        if i == j {
          assert false;
        }
        ys := TransferWithin(d, xs, pos, k, first, i, last, j);
      } else {
        if i != j {
          AtDistinct(d, xs, i, j);
        }
        MovedEmpty(xs, i, k);
        MovedEmpty(Elements(data, xs), i, k);
        ys := xs;
      }
    }
  }

  // ---------------------------------------------------------------------------
  // merge(x), over a store of int values compared with <.

  /** The state of merge(x) between rounds: this list's values before position i1 are
      final, and what remains is the merge of its rest with what is left of x. */
  ghost predicate Merging(l: Nodes<int>, d: int, xs: seq<int>, d2: int, ys: seq<int>, i1: int,
                          A: seq<int>, B: seq<int>, S: set<int>, n0: map<int, int>,
                          p0: map<int, int>)
    reads l
  {
    && l.Valid() && l.ListOk(d, xs) && l.ListOk(d2, ys) && NodeSet(d, xs) !! NodeSet(d2, ys)
    && NodeSet(d, xs) + NodeSet(d2, ys) == S && 0 <= i1 <= |xs|
    && Merged(A, B) == Elements(l.data, xs)[..i1] + Merged(Elements(l.data, xs)[i1..], Elements(l.data, ys))
    && Agree(n0, l.nx, S) && Agree(p0, l.pv, S)
  }

  /** A round of merge(x) that transfers x's first m values in front of this list's
      value at position i1 keeps the merge equation of the rounds. */
  lemma MergingTake(A: seq<int>, B: seq<int>, V1: seq<int>, V2: seq<int>, i1: int, m: int)
    requires 0 <= i1 < |V1| && 0 <= m <= |V2| && forall t :: 0 <= t < m ==> V2[t] < V1[i1]
    requires Merged(A, B) == V1[..i1] + Merged(V1[i1..], V2)
    ensures Merged(A, B) == (V1[..i1] + V2[0..m] + V1[i1..])[..i1 + m]
                          + Merged((V1[..i1] + V2[0..m] + V1[i1..])[i1 + m..], V2[..0] + V2[m..])
  {
    var W1 := V1[..i1] + V2[0..m] + V1[i1..];
    MergedTakes(V1[i1..], V2, m);
    calc {
      Merged(A, B);
      V1[..i1] + Merged(V1[i1..], V2);
      V1[..i1] + (V2[..m] + Merged(V1[i1..], V2[m..]));
      { assert V2[..0] + V2[m..] == V2[m..]; }
      (V1[..i1] + V2[..m]) + Merged(V1[i1..], V2[..0] + V2[m..]);
      { assert W1[..i1 + m] == V1[..i1] + V2[..m]; assert W1[i1 + m..] == V1[i1..]; }
      W1[..i1 + m] + Merged(W1[i1 + m..], V2[..0] + V2[m..]);
    }
  }

  /** A round of merge(x) that moves first1 from position i1 to i2 past values that x's
      head is not below keeps the merge equation of the rounds. */
  lemma MergingKeep(A: seq<int>, B: seq<int>, V1: seq<int>, V2: seq<int>, i1: int, i2: int)
    requires 0 <= i1 <= i2 <= |V1| && V2 != [] && forall t :: i1 <= t < i2 ==> !(V2[0] < V1[t])
    requires Merged(A, B) == V1[..i1] + Merged(V1[i1..], V2)
    ensures Merged(A, B) == V1[..i2] + Merged(V1[i2..], V2)
  {
    MergedKeepsFrom(V1, V2, i1, i2);
    JoinCuts(V1, i1, i2, Merged(V1[i2..], V2));
  }

  /** The cut before i, then [i, j), then M, is the cut before j, then M. */
  lemma JoinCuts<X>(V: seq<X>, i: int, j: int, M: seq<X>)
    requires 0 <= i <= j <= |V|
    ensures V[..i] + (V[i..j] + M) == V[..j] + M
  {
    assert V[..i] + V[i..j] == V[..j];
  }

  /** MergedKeeps for the suffix of V1 from i1: the values up to i2 stay in front. */
  lemma {:induction false} MergedKeepsFrom(V1: seq<int>, V2: seq<int>, i1: int, i2: int)
    requires 0 <= i1 <= i2 <= |V1| && V2 != [] && forall t :: i1 <= t < i2 ==> !(V2[0] < V1[t])
    ensures Merged(V1[i1..], V2) == V1[i1..i2] + Merged(V1[i2..], V2)
  {
    var W, k := V1[i1..], i2 - i1;
    forall t | 0 <= t < k
      ensures !(V2[0] < W[t])
    {
      assert W[t] == V1[i1 + t];
    }
    MergedKeeps(W, V2, k);
    assert W[..k] == V1[i1..i2] && W[k..] == V1[i2..];
  }

  /** The first branch of a round: x's head is below first1, so the longest run of x's
      values below first1 is found and transferred in front of first1. */
  method MergeTake(l: Nodes<int>, d: int, ghost xs: seq<int>, d2: int, ghost ys: seq<int>,
                   ghost i1: int, ghost A: seq<int>, ghost B: seq<int>, ghost S: set<int>,
                   ghost n0: map<int, int>, ghost p0: map<int, int>, first1: int, first2: int)
    returns (next: int, ghost xs2: seq<int>, ghost ys2: seq<int>, ghost i2: int)
    requires Merging(l, d, xs, d2, ys, i1, A, B, S, n0, p0)
    requires i1 < |xs| && first1 == xs[i1] && ys != [] && first2 == ys[0]
    requires l.data[first2] < l.data[first1]
    modifies l`nx, l`pv
    ensures Merging(l, d, xs2, d2, ys2, i2, A, B, S, n0, p0)
    ensures first1 == At(d, xs2, i2) && next == At(d2, ys2, 0)
    ensures |xs2| - i2 + |ys2| < |xs| - i1 + |ys|
  {
    ghost var V1, V2 := Elements(l.data, xs), Elements(l.data, ys);
    ghost var n1, p1 := l.nx, l.pv;
    RingKeys(l.nx, l.pv, d2, ys, 0);
    next := l.nx[first2];
    ghost var m := 1;
    while next != d2 && l.data[next] < l.data[first1]
      invariant 1 <= m <= |ys| && next == At(d2, ys, m)
      invariant forall t :: 0 <= t < m ==> V2[t] < V1[i1]
      modifies {}
      decreases |ys| - m
    {
      RingKeys(l.nx, l.pv, d2, ys, m);
      next := l.nx[next];
      m := m + 1;
    }
    xs2, ys2 := l.TransferBetween(d, xs, first1, i1, d2, ys, first2, 0, next, m);
    i2 := i1 + m;
    MergingTake(A, B, V1, V2, i1, m);
    assert xs2[i2] == xs[i1];
    assert At(d2, ys2, 0) == At(d2, ys, m);
    AgreeTrans(n0, n1, l.nx, S, S);
    AgreeTrans(p0, p1, l.pv, S, S);
  }

  /** The other branch of a round: first1 moves past every value that x's head is not
      below. */
  method MergeKeep(l: Nodes<int>, d: int, ghost xs: seq<int>, d2: int, ghost ys: seq<int>,
                   ghost i1: int, ghost A: seq<int>, ghost B: seq<int>, ghost S: set<int>,
                   ghost n0: map<int, int>, ghost p0: map<int, int>, first1: int, first2: int)
    returns (cur: int, ghost i2: int)
    requires Merging(l, d, xs, d2, ys, i1, A, B, S, n0, p0)
    requires i1 < |xs| && first1 == xs[i1] && ys != [] && first2 == ys[0]
    requires !(l.data[first2] < l.data[first1])
    ensures Merging(l, d, xs, d2, ys, i2, A, B, S, n0, p0)
    ensures cur == At(d, xs, i2) && i1 < i2
  {
    ghost var V1, V2 := Elements(l.data, xs), Elements(l.data, ys);
    cur := first1;
    i2 := i1;
    while cur != d && !(l.data[first2] < l.data[cur])
      invariant i1 <= i2 <= |xs| && cur == At(d, xs, i2)
      invariant forall t :: i1 <= t < i2 ==> !(V2[0] < V1[t])
      invariant i1 == i2 ==> cur == first1
      decreases |xs| - i2
    {
      RingKeys(l.nx, l.pv, d, xs, i2);
      cur := l.nx[cur];
      i2 := i2 + 1;
    }
    MergingKeep(A, B, V1, V2, i1, i2);
  }

  /** merge(x): the values of x are merged into this list, x's value going first only
      when strictly smaller, and x is left empty. */
  method Merge(l: Nodes<int>, d: int, ghost xs: seq<int>, d2: int, ghost ys: seq<int>)
    returns (ghost xs2: seq<int>, ghost ys2: seq<int>)
    requires l.Valid() && l.ListOk(d, xs) && l.ListOk(d2, ys) && NodeSet(d, xs) !! NodeSet(d2, ys)
    modifies l`nx, l`pv
    ensures l.Valid() && l.ListOk(d, xs2) && l.ListOk(d2, ys2) && ys2 == []
    ensures Elements(l.data, xs2) == Merged(Elements(l.data, xs), Elements(l.data, ys))
    ensures NodeSet(d, xs2) !! NodeSet(d2, ys2)
    ensures NodeSet(d, xs2) + NodeSet(d2, ys2) == NodeSet(d, xs) + NodeSet(d2, ys)
    ensures Agree(old(l.nx), l.nx, NodeSet(d, xs) + NodeSet(d2, ys))
    ensures Agree(old(l.pv), l.pv, NodeSet(d, xs) + NodeSet(d2, ys))
  {
    ghost var A, B := Elements(l.data, xs), Elements(l.data, ys);
    ghost var S, n0, p0 := NodeSet(d, xs) + NodeSet(d2, ys), l.nx, l.pv;
    RingKeys(l.nx, l.pv, d, xs, |xs|);
    RingKeys(l.nx, l.pv, d2, ys, |ys|);
    var first1 := l.nx[d];
    var last1 := d;
    var first2 := l.nx[d2];
    var last2 := d2;
    ghost var i1 := 0;
    xs2, ys2 := xs, ys;
    assert A[..0] == [] && A[0..] == A;
    while first1 != last1 && first2 != last2
      invariant Merging(l, d, xs2, d2, ys2, i1, A, B, S, n0, p0)
      invariant first1 == At(d, xs2, i1) && first2 == At(d2, ys2, 0)
      decreases |xs2| - i1 + |ys2|
    {
      if l.data[first2] < l.data[first1] {
        first2, xs2, ys2, i1 := MergeTake(l, d, xs2, d2, ys2, i1, A, B, S, n0, p0, first1, first2);
      } else {
        first1, i1 := MergeKeep(l, d, xs2, d2, ys2, i1, A, B, S, n0, p0, first1, first2);
      }
    }
    xs2, ys2 := MergeRest(l, d, xs2, d2, ys2, i1, A, B, S, n0, p0, first1, first2);
  }

  /** After the rounds of merge(x): whatever is left of x is transferred to the end. */
  method MergeRest(l: Nodes<int>, d: int, ghost xs: seq<int>, d2: int, ghost ys: seq<int>,
                   ghost i1: int, ghost A: seq<int>, ghost B: seq<int>, ghost S: set<int>,
                   ghost n0: map<int, int>, ghost p0: map<int, int>, first1: int, first2: int)
    returns (ghost xs2: seq<int>, ghost ys2: seq<int>)
    requires Merging(l, d, xs, d2, ys, i1, A, B, S, n0, p0)
    requires first1 == At(d, xs, i1) && first2 == At(d2, ys, 0) && (first1 == d || first2 == d2)
    modifies l`nx, l`pv
    ensures l.Valid() && l.ListOk(d, xs2) && l.ListOk(d2, ys2) && ys2 == []
    ensures Elements(l.data, xs2) == Merged(A, B)
    ensures NodeSet(d, xs2) !! NodeSet(d2, ys2) && NodeSet(d, xs2) + NodeSet(d2, ys2) == S
    ensures Agree(n0, l.nx, S) && Agree(p0, l.pv, S)
  {
    ghost var V1, V2 := Elements(l.data, xs), Elements(l.data, ys);
    if first2 != d2 {
      if i1 < |xs| {
        AtDistinct(d, xs, i1, |xs|);
      }
      MergingRest(A, B, V1, V2, i1);
      ghost var n1, p1 := l.nx, l.pv;
      xs2, ys2 := l.TransferBetween(d, xs, d, |xs|, d2, ys, first2, 0, d2, |ys|);
      assert V1[..|xs|] == V1 && V1[|xs|..] == [] && V2[0..|V2|] == V2;
      assert ys2 == [];
      AgreeTrans(n0, n1, l.nx, S, S);
      AgreeTrans(p0, p1, l.pv, S, S);
    } else {
      if ys != [] {
        AtDistinct(d2, ys, 0, |ys|);
      }
      MergingRest(A, B, V1, V2, i1);
      xs2, ys2 := xs, ys;
    }
  }

  /** Once this list's rest or x is empty, the merge equation gives the whole result. */
  lemma MergingRest(A: seq<int>, B: seq<int>, V1: seq<int>, V2: seq<int>, i1: int)
    requires 0 <= i1 <= |V1| && Merged(A, B) == V1[..i1] + Merged(V1[i1..], V2)
    requires i1 == |V1| || V2 == []
    ensures V2 == [] ==> Merged(A, B) == V1
    ensures i1 == |V1| ==> Merged(A, B) == V1 + V2
  {
    assert V1[..i1] + V1[i1..] == V1;
    if i1 == |V1| {
      assert V1[i1..] == [] && V1[..i1] == V1;
    }
  }
}
