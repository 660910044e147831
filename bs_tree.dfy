// Container/Associative/bs_tree.hpp: the unbalanced binary search tree under map and set.
// The nodes live in an arena of index-numbered slots (the links of module TreeShape): node 0
// is the header, whose parent link is the root and whose left and right links are the
// leftmost and rightmost nodes; Nil is the null link. A node's key is K[x]. Keys are
// integers compared with `<`, which stands for the tree's key_comp, and a node's value is
// its key (KeyOfValue is the identity).
//
// The tree the links form is the ghost field t; its nodes in order are Order(t), and their
// keys in that order are Elements(). An iterator is a node number: a node of t, or the
// header for end(). Its place in the order is Pos(t, it).
module BsTree {
  import opened TreeShape
  import opened Wrappers

  // ---------------------------------------------------------------------------
  // Keys in order

  /** The keys of the nodes O, in that order. */
  function Keys(K: seq<int>, O: seq<int>): (r: seq<int>)
    requires forall i :: 0 <= i < |O| ==> 0 <= O[i] < |K|
    ensures |r| == |O| && forall i :: 0 <= i < |O| ==> r[i] == K[O[i]]
  {
    seq(|O|, i requires 0 <= i < |O| => K[O[i]])
  }

  ghost predicate Sorted(s: seq<int>)
  {
    forall i, j :: 0 <= i < j < |s| ==> s[i] <= s[j]
  }

  /** The nodes O have keys, which do not decrease along O. */
  ghost predicate SortedKeys(K: seq<int>, O: seq<int>)
  {
    && (forall i :: 0 <= i < |O| ==> 0 <= O[i] < |K|)
    && (forall i, j :: 0 <= i < j < |O| ==> K[O[i]] <= K[O[j]])
  }

  /** The links form t under the header, every slot has a key, and the keys ascend in order. */
  ghost predicate Arena(P: seq<int>, L: seq<int>, R: seq<int>, K: seq<int>, t: Tree)
  {
    Shaped(P, L, R, t) && |K| == |P| && SortedKeys(K, Order(t))
  }

  /** p is lower_bound's answer in E: the elements before p are less than k, the others
      are not. */
  ghost predicate IsLower(E: seq<int>, k: int, p: int)
  {
    && 0 <= p <= |E|
    && (forall j :: 0 <= j < p ==> E[j] < k)
    && (forall j :: p <= j < |E| ==> k <= E[j])
  }

  /** p is upper_bound's answer in E: the elements before p are not greater than k, the
      others are. */
  ghost predicate IsUpper(E: seq<int>, k: int, p: int)
  {
    && 0 <= p <= |E|
    && (forall j :: 0 <= j < p ==> E[j] <= k)
    && (forall j :: p <= j < |E| ==> k < E[j])
  }

  /** The keys of the nodes before x in a sorted order are not greater than x's. */
  lemma KeysBefore(K: seq<int>, O: seq<int>, A: seq<int>, M: seq<int>, x: int, B: seq<int>)
    requires SortedKeys(K, O) && O == A + M + [x] + B
    ensures 0 <= x < |K| && forall i :: 0 <= i < |M| ==> 0 <= M[i] < |K| && K[M[i]] <= K[x]
  {
    assert O[|A| + |M|] == x;
    forall i | 0 <= i < |M| ensures 0 <= M[i] < |K| && K[M[i]] <= K[x] {
      assert O[|A| + i] == M[i] && O[|A| + |M|] == x;
    }
  }

  /** The keys of the nodes after x in a sorted order are not less than x's. */
  lemma KeysAfter(K: seq<int>, O: seq<int>, A: seq<int>, x: int, M: seq<int>, B: seq<int>)
    requires SortedKeys(K, O) && O == A + [x] + M + B
    ensures 0 <= x < |K| && forall i :: 0 <= i < |M| ==> 0 <= M[i] < |K| && K[x] <= K[M[i]]
  {
    assert O[|A|] == x;
    forall i | 0 <= i < |M| ensures 0 <= M[i] < |K| && K[x] <= K[M[i]] {
      assert O[|A| + 1 + i] == M[i] && O[|A|] == x;
    }
  }

  /** A descent that passes node s.id, whose key is below the bound, to the right: s.id and
      its left subtree join the nodes known to be below the bound. */
  lemma PassRight(K: seq<int>, O: seq<int>, A: seq<int>, s: Tree, B: seq<int>, k: int, strict: bool)
    requires SortedKeys(K, O) && s.Node? && O == A + Order(s) + B
    requires KeysUnder(K, A, k, strict)
    requires 0 <= s.id < |K| && (if strict then K[s.id] < k else K[s.id] <= k)
    ensures O == (A + Order(s.left) + [s.id]) + Order(s.right) + B
    ensures KeysUnder(K, A + Order(s.left) + [s.id], k, strict)
  {
    KeysBefore(K, O, A, Order(s.left), s.id, Order(s.right) + B);
    var A' := A + Order(s.left) + [s.id];
    if strict {
      forall i | 0 <= i < |A'| ensures 0 <= A'[i] < |K| && K[A'[i]] < k {
        if i < |A| {
          assert A'[i] == A[i];
        } else if i < |A| + |Order(s.left)| {
          assert A'[i] == Order(s.left)[i - |A|];
        }
      }
    } else {
      forall i | 0 <= i < |A'| ensures 0 <= A'[i] < |K| && K[A'[i]] <= k {
        if i < |A| {
          assert A'[i] == A[i];
        } else if i < |A| + |Order(s.left)| {
          assert A'[i] == Order(s.left)[i - |A|];
        }
      }
    }
  }

  /** A descent that passes node s.id to the left: s.id and its right subtree come after. */
  lemma PassLeft(O: seq<int>, A: seq<int>, s: Tree, B: seq<int>)
    requires s.Node? && O == A + Order(s) + B
    ensures O == A + Order(s.left) + ([s.id] + Order(s.right) + B)
  {
  }

  /** The keys from place p on in a sorted order are not less than the key at p. */
  lemma KeysFrom(K: seq<int>, O: seq<int>, p: int)
    requires SortedKeys(K, O) && 0 <= p < |O|
    ensures forall j :: p <= j < |O| ==> K[O[p]] <= Keys(K, O)[j]
  {
  }

  /** Every element between the two bounds equals k, so they are the copies of k. */
  lemma BoundsCount(E: seq<int>, k: int, lo: int, hi: int)
    requires IsLower(E, k, lo) && IsUpper(E, k, hi)
    ensures lo <= hi && multiset(E)[k] == hi - lo
  {
    ghost var atHi := if 0 <= hi < |E| then E[hi] else k;
    assert E == E[..lo] + E[lo..hi] + E[hi..];
    assert k !in E[..lo] && k !in E[hi..];
    AllSame(E[lo..hi], k);
  }

  /** Cutting out the run of k between the bounds leaves no k and every other element as
      often as before. */
  lemma EraseRun(E: seq<int>, k: int, lo: int, hi: int)
    requires IsLower(E, k, lo) && IsUpper(E, k, hi)
    ensures lo <= hi && k !in E[..lo] + E[hi..]
    ensures forall x :: x != k ==> multiset(E[..lo] + E[hi..])[x] == multiset(E)[x]
  {
    BoundsCount(E, k, lo, hi);
    assert E == E[..lo] + E[lo..hi] + E[hi..];
    assert k !in E[..lo] && k !in E[hi..];
    forall x | x != k ensures multiset(E[..lo] + E[hi..])[x] == multiset(E)[x] {
      assert x !in E[lo..hi];
    }
  }

  lemma {:induction false} AllSame(s: seq<int>, k: int)
    requires forall i :: 0 <= i < |s| ==> s[i] == k
    ensures multiset(s)[k] == |s|
  {
    if s != [] {
      assert s == [s[0]] + s[1..];
      AllSame(s[1..], k);
    }
  }

  /** Every node of O has a key, and none is greater than k. */
  ghost predicate KeysAtMost(K: seq<int>, O: seq<int>, k: int)
  {
    forall i :: 0 <= i < |O| ==> 0 <= O[i] < |K| && K[O[i]] <= k
  }

  /** Every node of O has a key, and each is less than k. */
  ghost predicate KeysBelow(K: seq<int>, O: seq<int>, k: int)
  {
    forall i :: 0 <= i < |O| ==> 0 <= O[i] < |K| && K[O[i]] < k
  }

  /** The keys of O are below k (strict) or not above k (not strict). */
  ghost predicate KeysUnder(K: seq<int>, O: seq<int>, k: int, strict: bool)
  {
    if strict then KeysBelow(K, O, k) else KeysAtMost(K, O, k)
  }

  /** Every node of O has a key, and each is greater than k. */
  ghost predicate KeysAbove(K: seq<int>, O: seq<int>, k: int)
  {
    forall i :: 0 <= i < |O| ==> 0 <= O[i] < |K| && k < K[O[i]]
  }

  /** A descent that passes node s.id, whose key is greater than k, to the left: s.id and its
      right subtree join the nodes known to be greater than k. */
  lemma {:induction false} PassLeftKeys(K: seq<int>, O: seq<int>, A: seq<int>, s: Tree, B: seq<int>, k: int)
    requires SortedKeys(K, O) && s.Node? && O == A + Order(s) + B
    requires 0 <= s.id < |K| && k < K[s.id] && KeysAbove(K, B, k)
    ensures O == A + Order(s.left) + ([s.id] + Order(s.right) + B)
    ensures KeysAbove(K, [s.id] + Order(s.right) + B, k)
  {
    assert O == (A + Order(s.left)) + [s.id] + Order(s.right) + B;
    KeysAfter(K, O, A + Order(s.left), s.id, Order(s.right), B);
  }

  /** A new node n == |K| with key k, put between A and B whose keys are not greater and
      greater than k: the keys stay sorted, and k enters the key sequence at |A|. */
  lemma {:induction false} InsertKeys(K: seq<int>, A: seq<int>, B: seq<int>, k: int)
    requires SortedKeys(K, A + B) && KeysAtMost(K, A, k) && KeysAbove(K, B, k)
    ensures SortedKeys(K + [k], A + [|K|] + B)
    ensures Keys(K + [k], A + [|K|] + B) == Keys(K, A + B)[..|A|] + [k] + Keys(K, A + B)[|A|..]
  {
    var K', O, E := K + [k], A + [|K|] + B, Keys(K, A + B);
    var E' := E[..|A|] + [k] + E[|A|..];
    forall i | 0 <= i < |O|
      ensures 0 <= O[i] < |K'| && K'[O[i]] == E'[i]
      ensures i < |A| ==> K'[O[i]] <= k
      ensures i > |A| ==> k < K'[O[i]]
    {
      if i < |A| {
        assert O[i] == A[i] == (A + B)[i];
      } else if i > |A| {
        assert O[i] == B[i - |A| - 1] == (A + B)[i - 1];
      }
    }
    forall i, j | 0 <= i < j < |O| ensures K'[O[i]] <= K'[O[j]] {
      if j < |A| || i > |A| {
        var i', j' := if i < |A| then i else i - 1, if j < |A| then j else j - 1;
        assert O[i] == (A + B)[i'] && O[j] == (A + B)[j'];
      }
    }
  }

  /** The order and keys after insert_aux hangs node n == |K| with key k between A and B. */
  lemma Hung(K: seq<int>, O: seq<int>, A: seq<int>, B: seq<int>, O': seq<int>, n: int, k: int)
    requires O == A + B && O' == A + [n] + B
    requires SortedKeys(K, O) && KeysAtMost(K, A, k) && KeysAbove(K, B, k) && n == |K|
    requires NoDup(O')
    ensures SortedKeys(K + [k], O')
    ensures Keys(K + [k], O') == Keys(K, O)[..|A|] + [k] + Keys(K, O)[|A|..]
    ensures n in O' && IndexOf(O', n) == |A|
  {
    InsertKeys(K, A, B, k);
    assert O'[|A|] == n;
    IndexAt(O', |A|);
  }

  /** Keys split at k into A, not greater, and B, greater: k is a key exactly when A's last
      node has it. */
  lemma SplitKeys(K: seq<int>, A: seq<int>, B: seq<int>, k: int)
    requires SortedKeys(K, A + B) && KeysAtMost(K, A, k) && KeysAbove(K, B, k)
    ensures A == [] ==> k !in Keys(K, A + B)
    ensures A != [] ==> 0 <= Last(A) < |K| && (k in Keys(K, A + B) <==> K[Last(A)] == k)
  {
    var O, E := A + B, Keys(K, A + B);
    if A != [] {
      assert O[|A| - 1] == Last(A);
    }
    if A == [] || K[Last(A)] != k {
      forall j | 0 <= j < |E| ensures E[j] != k {
        if j < |A| {
          assert O[j] == A[j] && O[|A| - 1] == Last(A);
        } else {
          assert O[j] == B[j - |A|];
        }
      }
    }
  }

  /** The nodes on either side of an empty hole: its parent comes right after it when the
      hole is a left child and right before it when the hole is a right child. */
  lemma HoleNeighbours(t: Tree, z: seq<Frame>)
    requires NoDup(Order(t)) && Header !in Order(t) && Plug(z, Leaf) == t && Order(t) == Pre(z) + Post(z)
    ensures z != [] && z[0].toLeft ==> Points(t, Top(z)) && Pos(t, Top(z)) == |Pre(z)|
    ensures z != [] && !z[0].toLeft ==> Pre(z) != [] && Last(Pre(z)) == Top(z)
    ensures Pre(z) != [] ==> Points(t, Last(Pre(z))) && Pos(t, Last(Pre(z))) == |Pre(z)| - 1
  {
    var O := Order(t);
    if z != [] && z[0].toLeft {
      assert Post(z)[0] == Top(z) && O[|Pre(z)|] == Top(z);
      IndexAt(O, |Pre(z)|);
    }
    if z != [] && !z[0].toLeft {
      assert Last(Pre(z)) == Top(z);
    }
    if Pre(z) != [] {
      assert O[|Pre(z)| - 1] == Last(Pre(z));
      IndexAt(O, |Pre(z)| - 1);
    }
  }

  /** Removing the node at place p of a sorted order removes the key at p. */
  lemma RemoveKeys(K: seq<int>, O: seq<int>, p: int)
    requires SortedKeys(K, O) && 0 <= p < |O|
    ensures SortedKeys(K, O[..p] + O[p + 1..])
    ensures Keys(K, O[..p] + O[p + 1..]) == Keys(K, O)[..p] + Keys(K, O)[p + 1..]
  {
    var O', E := O[..p] + O[p + 1..], Keys(K, O);
    forall i | 0 <= i < |O'| ensures O'[i] == O[if i < p then i else i + 1] {
    }
  }

  // ---------------------------------------------------------------------------
  // Descents

  /** lower_bound's descent: from the root, remembering in y the last node whose key is not
      less than k; the answer is the first element not less than k, or end(). */
  method DescendLower(P: seq<int>, L: seq<int>, R: seq<int>, K: seq<int>, ghost t: Tree, k: int)
    returns (y: int)
    requires Arena(P, L, R, K, t)
    ensures Points(t, y) && IsLower(Keys(K, Order(t)), k, Pos(t, y))
  {
    y := Header;
    var x := P[Header];
    ghost var s, pid, A, B := t, Header, [], [];
    BoundStart(P, L, R, K, t, k, true);
    while x != Nil
      invariant Bounding(P, L, R, K, t, s, pid, A, B, y, k, true) && x == RootId(s)
      decreases s
    {
      BoundStep(P, L, R, K, t, s, pid, A, B, y, k, true);
      if K[x] < k {
        BoundRight(P, L, R, K, t, s, pid, A, B, y, k, true);
        A := A + Order(s.left) + [x];
        x := R[x];
        pid, s := s.id, s.right;
      } else {
        BoundLeft(P, L, R, K, t, s, pid, A, B, y, k, true);
        B := [x] + Order(s.right) + B;
        y := x;
        x := L[x];
        pid, s := s.id, s.left;
      }
    }
    BoundDone(P, L, R, K, t, s, pid, A, B, y, k, true);
    LowerAt(P, L, R, K, t, A, B, y, k);
  }

  /** upper_bound's descent: from the root, remembering in y the last node whose key is
      greater than k; the answer is the first element greater than k, or end(). */
  method DescendUpper(P: seq<int>, L: seq<int>, R: seq<int>, K: seq<int>, ghost t: Tree, k: int)
    returns (y: int)
    requires Arena(P, L, R, K, t)
    ensures Points(t, y) && IsUpper(Keys(K, Order(t)), k, Pos(t, y))
  {
    y := Header;
    var x := P[Header];
    ghost var s, pid, A, B := t, Header, [], [];
    BoundStart(P, L, R, K, t, k, false);
    while x != Nil
      invariant Bounding(P, L, R, K, t, s, pid, A, B, y, k, false) && x == RootId(s)
      decreases s
    {
      BoundStep(P, L, R, K, t, s, pid, A, B, y, k, false);
      if k < K[x] {
        BoundLeft(P, L, R, K, t, s, pid, A, B, y, k, false);
        B := [x] + Order(s.right) + B;
        y := x;
        x := L[x];
        pid, s := s.id, s.left;
      } else {
        BoundRight(P, L, R, K, t, s, pid, A, B, y, k, false);
        A := A + Order(s.left) + [x];
        x := R[x];
        pid, s := s.id, s.right;
      }
    }
    BoundDone(P, L, R, K, t, s, pid, A, B, y, k, false);
    UpperAt(P, L, R, K, t, A, B, y, k);
  }

  /** Part way down lower_bound's (strict) or upper_bound's descent for k: s hangs below pid,
      the nodes A before it have keys under k and y, the last node kept, heads the nodes B
      after it and has a key not under k. */
  ghost predicate Bounding(P: seq<int>, L: seq<int>, R: seq<int>, K: seq<int>, t: Tree, s: Tree, pid: int,
                           A: seq<int>, B: seq<int>, y: int, k: int, strict: bool)
  {
    && Encodes(P, L, R, s, pid) && Order(t) == A + Order(s) + B && KeysUnder(K, A, k, strict)
    && 0 <= y < |K| && (y == Header ==> B == [])
    && (y != Header ==> B != [] && B[0] == y && (if strict then k <= K[y] else k < K[y]))
  }

  /** The descent starts at the root with nothing passed and the header kept. */
  lemma BoundStart(P: seq<int>, L: seq<int>, R: seq<int>, K: seq<int>, t: Tree, k: int, strict: bool)
    requires Arena(P, L, R, K, t)
    ensures Bounding(P, L, R, K, t, t, Header, [], [], Header, k, strict) && P[Header] == RootId(t)
  {
    assert Order(t) == [] + Order(t) + [];
  }

  /** Where the descent runs out, A and B make up the whole order. */
  lemma BoundDone(P: seq<int>, L: seq<int>, R: seq<int>, K: seq<int>, t: Tree, s: Tree, pid: int,
                  A: seq<int>, B: seq<int>, y: int, k: int, strict: bool)
    requires Bounding(P, L, R, K, t, s, pid, A, B, y, k, strict) && RootId(s) == Nil
    ensures Order(t) == A + B && (if strict then KeysBelow(K, A, k) else KeysAtMost(K, A, k))
  {
    assert Order(s) == [];
    assert A + Order(s) + B == A + B;
  }

  /** A node met on the descent has a key and its children's links. */
  lemma BoundStep(P: seq<int>, L: seq<int>, R: seq<int>, K: seq<int>, t: Tree, s: Tree, pid: int,
                  A: seq<int>, B: seq<int>, y: int, k: int, strict: bool)
    requires Arena(P, L, R, K, t) && Bounding(P, L, R, K, t, s, pid, A, B, y, k, strict) && s.Node?
    ensures 0 <= s.id < |K| && L[s.id] == RootId(s.left) && R[s.id] == RootId(s.right)
  {
    assert s.id in Order(t);
  }

  /** The descent steps right past a node whose key is under k. */
  lemma BoundRight(P: seq<int>, L: seq<int>, R: seq<int>, K: seq<int>, t: Tree, s: Tree, pid: int,
                   A: seq<int>, B: seq<int>, y: int, k: int, strict: bool)
    requires Arena(P, L, R, K, t) && Bounding(P, L, R, K, t, s, pid, A, B, y, k, strict) && s.Node?
    requires 0 <= s.id < |K| && (if strict then K[s.id] < k else K[s.id] <= k)
    ensures Bounding(P, L, R, K, t, s.right, s.id, A + Order(s.left) + [s.id], B, y, k, strict)
  {
    PassRight(K, Order(t), A, s, B, k, strict);
  }

  /** The descent steps left past a node whose key is not under k, keeping it in y. */
  lemma BoundLeft(P: seq<int>, L: seq<int>, R: seq<int>, K: seq<int>, t: Tree, s: Tree, pid: int,
                  A: seq<int>, B: seq<int>, y: int, k: int, strict: bool)
    requires Arena(P, L, R, K, t) && Bounding(P, L, R, K, t, s, pid, A, B, y, k, strict) && s.Node?
    requires 0 <= s.id < |K| && (if strict then k <= K[s.id] else k < K[s.id])
    ensures Bounding(P, L, R, K, t, s.left, s.id, A, [s.id] + Order(s.right) + B, s.id, k, strict)
  {
    PassLeft(Order(t), A, s, B);
  }

  /** How lower_bound's descent ends: y is the first node not less than k, or the header. */
  lemma {:induction false} LowerAt(P: seq<int>, L: seq<int>, R: seq<int>, K: seq<int>, t: Tree,
                A: seq<int>, B: seq<int>, y: int, k: int)
    requires Arena(P, L, R, K, t) && Order(t) == A + B && KeysBelow(K, A, k)
    requires 0 <= y < |K|
    requires y == Header ==> B == []
    requires y != Header ==> B != [] && B[0] == y && k <= K[y]
    ensures Points(t, y) && IsLower(Keys(K, Order(t)), k, Pos(t, y))
  {
    BoundAt(t, A, B, y);
    if y != Header {
      assert Order(t)[|A|] == y;
      KeysFrom(K, Order(t), |A|);
    }
  }

  /** How upper_bound's descent ends: y is the first node greater than k, or the header. */
  lemma UpperAt(P: seq<int>, L: seq<int>, R: seq<int>, K: seq<int>, t: Tree,
                A: seq<int>, B: seq<int>, y: int, k: int)
    requires Arena(P, L, R, K, t) && Order(t) == A + B && KeysAtMost(K, A, k)
    requires 0 <= y < |K|
    requires y == Header ==> B == []
    requires y != Header ==> B != [] && B[0] == y && k < K[y]
    ensures Points(t, y) && IsUpper(Keys(K, Order(t)), k, Pos(t, y))
  {
    BoundAt(t, A, B, y);
    if y != Header {
      assert Order(t)[|A|] == y;
      KeysFrom(K, Order(t), |A|);
    }
  }

  /** Where a descent that split the order into A and B stops: at B's first node, or at the
      header when B is empty. */
  lemma BoundAt(t: Tree, A: seq<int>, B: seq<int>, y: int)
    requires NoDup(Order(t)) && Order(t) == A + B
    requires y == Header ==> B == []
    requires y != Header ==> B != [] && B[0] == y
    ensures Points(t, y) && Pos(t, y) == |A|
  {
    if y != Header {
      assert Order(t)[|A|] == y;
      IndexAt(Order(t), |A|);
    }
  }

  /** The descent of insert_equal and insert_unique: from the root, to the left while k is
      less than the node's key and to the right otherwise, until the link followed is null.
      y is the last node passed (the header in an empty tree), the empty hole z below it is
      where a new node with key k goes, and comp is the last comparison. */
  method DescendInsert(P: seq<int>, L: seq<int>, R: seq<int>, K: seq<int>, ghost t: Tree, k: int)
    returns (y: int, comp: bool, ghost z: seq<Frame>)
    requires Arena(P, L, R, K, t)
    ensures Plug(z, Leaf) == t && Ctx(P, L, R, z, Nil) && y == Top(z)
    ensures comp <==> (z == [] || z[0].toLeft)
    ensures Order(t) == Pre(z) + Post(z)
    ensures KeysAtMost(K, Pre(z), k) && KeysAbove(K, Post(z), k)
  {
    y, comp := Header, true;
    var x := P[Header];
    z := [];
    ghost var s := t;
    DescentStart(P, L, R, K, t, k);
    while x != Nil
      invariant Descent(P, L, R, K, t, z, s, k) && x == RootId(s) && y == Top(z)
      invariant comp <==> (z == [] || z[0].toLeft)
      decreases |Order(s)|
    {
      x, y, comp, z, s := DescendStep(P, L, R, K, t, z, s, x, k);
    }
    DescentEnd(P, L, R, K, t, z, s, k);
  }

  /** A descent starts at the root with no frames. */
  lemma {:induction false} DescentStart(P: seq<int>, L: seq<int>, R: seq<int>, K: seq<int>, t: Tree, k: int)
    requires Arena(P, L, R, K, t)
    ensures Descent(P, L, R, K, t, [], t, k) && P[Header] == RootId(t)
  {
    var z: seq<Frame> := [];
    assert Pre(z) == [] && Post(z) == [] && Top(z) == Header && Plug(z, t) == t;
    assert Order(t) == Pre(z) + Order(t) + Post(z);
  }

  /** A descent that reaches a null link has found the empty hole for k. */
  lemma {:induction false} DescentEnd(P: seq<int>, L: seq<int>, R: seq<int>, K: seq<int>, t: Tree,
                   z: seq<Frame>, s: Tree, k: int)
    requires Arena(P, L, R, K, t) && Descent(P, L, R, K, t, z, s, k) && RootId(s) == Nil
    ensures s == Leaf && Plug(z, Leaf) == t && Ctx(P, L, R, z, Nil)
    ensures Order(t) == Pre(z) + Post(z)
    ensures KeysAtMost(K, Pre(z), k) && KeysAbove(K, Post(z), k)
  {
    assert Pre(z) + Order(Leaf) + Post(z) == Pre(z) + Post(z);
  }

  /** One step of insert's descent from node x, the root of s: y becomes x, and the descent
      goes to x's left child when k is less than x's key, to its right child otherwise. */
  method DescendStep(P: seq<int>, L: seq<int>, R: seq<int>, K: seq<int>, ghost t: Tree,
                     ghost z: seq<Frame>, ghost s: Tree, x: int, k: int)
    returns (x': int, y: int, comp: bool, ghost z': seq<Frame>, ghost s': Tree)
    requires Arena(P, L, R, K, t) && Descent(P, L, R, K, t, z, s, k) && x == RootId(s) && x != Nil
    ensures Descent(P, L, R, K, t, z', s', k) && x' == RootId(s') && y == Top(z') == x
    ensures z' != [] && (comp <==> z'[0].toLeft) && |Order(s')| < |Order(s)|
  {
    y := x;
    comp := k < K[x];
    if comp {
      DescendLeft(P, L, R, K, t, z, s, k);
      z', s' := [Frame(true, s.id, s.right)] + z, s.left;
      x' := L[x];
    } else {
      DescendRight(P, L, R, K, t, z, s, k);
      z', s' := [Frame(false, s.id, s.left)] + z, s.right;
      x' := R[x];
    }
  }

  /** Part way down a descent for k: s hangs in the hole of z, the nodes before it have keys
      not greater than k and the nodes after it keys greater than k. */
  ghost predicate Descent(P: seq<int>, L: seq<int>, R: seq<int>, K: seq<int>, t: Tree,
                          z: seq<Frame>, s: Tree, k: int)
  {
    && Plug(z, s) == t
    && Ctx(P, L, R, z, RootId(s)) && Encodes(P, L, R, s, Top(z))
    && Order(t) == Pre(z) + Order(s) + Post(z)
    && KeysAtMost(K, Pre(z), k) && KeysAbove(K, Post(z), k)
  }

  /** The descent steps left past a node whose key is greater than k. */
  lemma DescendLeft(P: seq<int>, L: seq<int>, R: seq<int>, K: seq<int>, t: Tree,
                    z: seq<Frame>, s: Tree, k: int)
    requires Arena(P, L, R, K, t) && Descent(P, L, R, K, t, z, s, k) && s.Node? && 0 <= s.id < |K|
    requires k < K[s.id]
    ensures Descent(P, L, R, K, t, [Frame(true, s.id, s.right)] + z, s.left, k)
  {
    PassLeftKeys(K, Order(t), Pre(z), s, Post(z), k);
    GoLeft(P, L, R, z, s);
  }

  /** The descent steps right past a node whose key is not greater than k. */
  lemma DescendRight(P: seq<int>, L: seq<int>, R: seq<int>, K: seq<int>, t: Tree,
                     z: seq<Frame>, s: Tree, k: int)
    requires Arena(P, L, R, K, t) && Descent(P, L, R, K, t, z, s, k) && s.Node? && 0 <= s.id < |K|
    requires K[s.id] <= k
    ensures Descent(P, L, R, K, t, [Frame(false, s.id, s.left)] + z, s.right, k)
  {
    PassRight(K, Order(t), Pre(z), s, Post(z), k, false);
    GoRight(P, L, R, z, s);
  }

  /** insert_aux on the arena: a new node n with key k takes the next free slot and becomes
      the left child of y when y is the header or k is less than y's key, and its right child
      otherwise; the header's root, leftmost and rightmost move to n where n becomes them. The
      new links form the tree with n in the hole z below y, and k enters the keys in order at
      the hole's place. */
  method HangLeaf(P: seq<int>, L: seq<int>, R: seq<int>, K: seq<int>, ghost t: Tree,
                  ghost z: seq<Frame>, y: int, k: int)
    returns (p: seq<int>, l: seq<int>, r: seq<int>, K': seq<int>, n: int)
    requires Arena(P, L, R, K, t) && Plug(z, Leaf) == t && Ctx(P, L, R, z, Nil) && y == Top(z)
    requires KeysAtMost(K, Pre(z), k) && KeysAbove(K, Post(z), k)
    ensures n == |P| && K' == K + [k] && Order(t) == Pre(z) + Post(z)
    ensures Arena(p, l, r, K', Plug(z, Node(Leaf, n, Leaf)))
    ensures Order(Plug(z, Node(Leaf, n, Leaf))) == Pre(z) + [n] + Post(z)
    ensures n in Order(Plug(z, Node(Leaf, n, Leaf)))
    ensures IndexOf(Order(Plug(z, Node(Leaf, n, Leaf))), n) == |Pre(z)|
    ensures Keys(K', Order(Plug(z, Node(Leaf, n, Leaf))))
         == Keys(K, Order(t))[..|Pre(z)|] + [k] + Keys(K, Order(t))[|Pre(z)|..]
  {
    HoleSide(K, t, z, k);
    var left := y == Header || k < K[y];
    p, l, r, n := LinkNode(P, L, R, t, z, y, left);
    K' := K + [k];
    Hung(K, Order(t), Pre(z), Post(z), Order(Plug(z, Node(Leaf, n, Leaf))), n, k);
  }

  /** The links of insert_aux: a new node n == |P| becomes y's left child (left) or right
      child, and the header's root, leftmost or rightmost where n takes that place. */
  method LinkNode(P: seq<int>, L: seq<int>, R: seq<int>, ghost t: Tree, ghost z: seq<Frame>,
                  y: int, left: bool)
    returns (p: seq<int>, l: seq<int>, r: seq<int>, n: int)
    requires Shaped(P, L, R, t) && Plug(z, Leaf) == t && Ctx(P, L, R, z, Nil) && y == Top(z)
    requires left <==> (z == [] || z[0].toLeft)
    ensures n == |P| && |p| == n + 1 && Order(t) == Pre(z) + Post(z)
    ensures Shaped(p, l, r, Plug(z, Node(Leaf, n, Leaf)))
    ensures Order(Plug(z, Node(Leaf, n, Leaf))) == Pre(z) + [n] + Post(z)
  {
    HoleEnds(P, L, R, t, z);
    PlugOrder(z, Leaf);
    n := |P|;
    p, l, r := P + [y], L + [Nil], R + [Nil];
    if left {
      l := l[y := n];
      if y == Header {
        p := p[Header := n];
        r := r[Header := n];
      } else if y == l[Header] {
        l := l[Header := n];
      }
    } else {
      r := r[y := n];
      if y == r[Header] {
        r := r[Header := n];
      }
    }
    LinkLeaf(P, L, R, t, z, n, p, l, r);
  }

  /** The node above the hole of a descent for k is a left parent exactly when k is less than
      its key (or it is the header). */
  lemma HoleSide(K: seq<int>, t: Tree, z: seq<Frame>, k: int)
    requires Plug(z, Leaf) == t && |K| >= 1 && (z != [] ==> 0 <= z[0].pid < |K| && z[0].pid != Header)
    requires KeysAtMost(K, Pre(z), k) && KeysAbove(K, Post(z), k)
    ensures 0 <= Top(z) < |K|
    ensures (z == [] || z[0].toLeft) <==> (Top(z) == Header || k < K[Top(z)])
  {
    if z != [] {
      if z[0].toLeft {
        assert Post(z)[0] == z[0].pid;
      } else {
        assert Last(Pre(z)) == z[0].pid;
      }
    }
  }

  // ---------------------------------------------------------------------------
  // Unlinking

  /** erase_aux on the arena: node zn leaves the tree. With at most one child it is replaced
      by that child; with two children its successor, the minimum of its right subtree, is
      unlinked from below and takes zn's place. The header's root, leftmost and rightmost
      follow. The new links form the old tree without zn, in the old order. */
  method Unlink(P: seq<int>, L: seq<int>, R: seq<int>, ghost t: Tree, zn: int)
    returns (p: seq<int>, l: seq<int>, r: seq<int>, ghost t': Tree)
    requires Shaped(P, L, R, t) && zn in Order(t)
    ensures |p| == |P| && Shaped(p, l, r, t') && Same(P, L, R, p, l, r, zn)
    ensures Order(t') == Order(t)[..IndexOf(Order(t), zn)] + Order(t)[IndexOf(Order(t), zn) + 1..]
  {
    ghost var z, s := Locate(t, zn);
    p, l, r, t' := UnlinkAt(P, L, R, t, z, s, zn);
    RemovedAt(t, z, s);
  }

  /** erase_aux at the node s.id, located in t by the context z: the two-children case when
      both links are set, the at-most-one-child case otherwise. */
  method UnlinkAt(P: seq<int>, L: seq<int>, R: seq<int>, ghost t: Tree, ghost z: seq<Frame>, ghost s: Tree, zn: int)
    returns (p: seq<int>, l: seq<int>, r: seq<int>, ghost t': Tree)
    requires Shaped(P, L, R, t) && Plug(z, s) == t && s.Node? && zn == s.id
    ensures |p| == |P| && Shaped(p, l, r, t') && Same(P, L, R, p, l, r, zn)
    ensures Order(t') == Pre(z) + Order(s.left) + Order(s.right) + Post(z)
  {
    Place(P, L, R, t, z, s);
    assert s.id in Nodes(s) && L[zn] == RootId(s.left) && R[zn] == RootId(s.right);
    if s.left.Node? {
      assert s.left.id in Nodes(s.left);
    }
    if s.right.Node? {
      assert s.right.id in Nodes(s.right);
    }
    if L[zn] != Nil && R[zn] != Nil {
      p, l, r := UnlinkTwo(P, L, R, t, z, s, zn);
      t' := Plug(z, Spliced(s));
    } else {
      p, l, r := UnlinkOne(P, L, R, t, z, s, zn);
      t' := Plug(z, Child(s));
    }
  }

  /** erase(pos) on the arena, with its successor taken first: next is ++pos in the old
      links, and then pos is unlinked. The keys keep their order, the element at pos's place
      is gone, and next stands where pos stood. */
  method EraseAt(P: seq<int>, L: seq<int>, R: seq<int>, K: seq<int>, ghost t: Tree, it: int)
    returns (p: seq<int>, l: seq<int>, r: seq<int>, ghost t': Tree, next: int)
    requires Arena(P, L, R, K, t) && Points(t, it) && it != Header
    ensures Arena(p, l, r, K, t') && |Order(t')| == |Order(t)| - 1
    ensures Order(t') == Order(t)[..Pos(t, it)] + Order(t)[Pos(t, it) + 1..]
    ensures Keys(K, Order(t')) == Keys(K, Order(t))[..Pos(t, it)] + Keys(K, Order(t))[Pos(t, it) + 1..]
    ensures Points(t', next) && Pos(t', next) == Pos(t, it)
  {
    ghost var O, i := Order(t), IndexOf(Order(t), it);
    EncodesIds(P, L, R, t, Header);
    next := Incre(P, L, R, t, it);
    p, l, r, t' := Unlink(P, L, R, t, it);
    RemoveKeys(K, O, i);
    PosAfter(O, Order(t'), i, next);
  }

  /** A node after position i of O, or the header past the end, moves one place forward
      once O[i] is taken out. */
  lemma PosAfter(O: seq<int>, O': seq<int>, i: nat, x: int)
    requires NoDup(O) && NoDup(O') && i < |O| && O' == O[..i] + O[i + 1..] && Header !in O
    requires x == Header || x in O
    requires (if x == Header then |O| else IndexOf(O, x)) > i
    ensures x == Header || x in O'
    ensures (if x == Header then |O'| else IndexOf(O', x)) == (if x == Header then |O| else IndexOf(O, x)) - 1
  {
    if x != Header {
      var j := IndexOf(O, x);
      assert O'[j - 1] == x;
      IndexAt(O', j - 1);
    }
  }

  /** The loop of erase(first, last): erase(first) and step on until last is reached. The
      m elements between the two positions are gone and the others keep their order. */
  method EraseFrom(P: seq<int>, L: seq<int>, R: seq<int>, K: seq<int>, ghost t: Tree, first: int, last: int)
    returns (p: seq<int>, l: seq<int>, r: seq<int>, ghost t': Tree, m: nat)
    requires Arena(P, L, R, K, t) && Points(t, first) && Points(t, last) && Pos(t, first) <= Pos(t, last)
    ensures Arena(p, l, r, K, t') && m == Pos(t, last) - Pos(t, first) && |Order(t')| == |Order(t)| - m
    ensures Keys(K, Order(t')) == Keys(K, Order(t))[..Pos(t, first)] + Keys(K, Order(t))[Pos(t, last)..]
  {
    ghost var E0, lo, hi := Keys(K, Order(t)), Pos(t, first), Pos(t, last);
    p, l, r, t', m := P, L, R, t, 0;
    var it := first;
    ErasingStart(P, L, R, K, t, first, last);
    while it != last
      invariant Erasing(p, l, r, K, t', it, last, E0, lo, hi, m)
      decreases hi - m - lo
    {
      p, l, r, t', it := EraseStep(p, l, r, K, t', it, last, E0, lo, hi, m);
      m := m + 1;
    }
    ErasingDone(p, l, r, K, t', last, E0, lo, hi, m);
  }

  /** Before the loop of erase(first, last), nothing is erased yet. */
  lemma ErasingStart(P: seq<int>, L: seq<int>, R: seq<int>, K: seq<int>, t: Tree, first: int, last: int)
    requires Arena(P, L, R, K, t) && Points(t, first) && Points(t, last) && Pos(t, first) <= Pos(t, last)
    ensures Erasing(P, L, R, K, t, first, last, Keys(K, Order(t)), Pos(t, first), Pos(t, last), 0)
  {
    var E0 := Keys(K, Order(t));
    assert E0 == E0[..Pos(t, first)] + E0[Pos(t, first)..];
  }

  /** Once the iterator meets last, the whole run [lo, hi) of E0 is erased. */
  lemma ErasingDone(P: seq<int>, L: seq<int>, R: seq<int>, K: seq<int>, t: Tree, last: int,
                    E0: seq<int>, lo: nat, hi: nat, m: nat)
    requires Erasing(P, L, R, K, t, last, last, E0, lo, hi, m)
    ensures Arena(P, L, R, K, t) && m == hi - lo && |Order(t)| == |E0| - m
    ensures Keys(K, Order(t)) == E0[..lo] + E0[hi..]
  {
  }

  /** The state of erase(first, last)'s loop after m steps: the iterator is back at place lo
      and last has moved m places forward, and E0's elements from lo on m places are gone. */
  ghost predicate Erasing(P: seq<int>, L: seq<int>, R: seq<int>, K: seq<int>, t: Tree,
                          it: int, last: int, E0: seq<int>, lo: nat, hi: nat, m: nat)
  {
    && Arena(P, L, R, K, t) && Points(t, it) && Points(t, last)
    && Pos(t, it) == lo && Pos(t, last) == hi - m && lo + m <= hi <= |E0|
    && |Order(t)| == |E0| - m && Keys(K, Order(t)) == E0[..lo] + E0[lo + m..]
  }

  /** One step of erase(first, last)'s loop: erase(it) hands back the next iterator. */
  method EraseStep(P: seq<int>, L: seq<int>, R: seq<int>, K: seq<int>, ghost t: Tree, it: int, last: int,
                   ghost E0: seq<int>, ghost lo: nat, ghost hi: nat, ghost m: nat)
    returns (p: seq<int>, l: seq<int>, r: seq<int>, ghost t': Tree, next: int)
    requires Erasing(P, L, R, K, t, it, last, E0, lo, hi, m) && it != last
    ensures Erasing(p, l, r, K, t', next, last, E0, lo, hi, m + 1)
  {
    PosSame(t, it, last);
    EncodesIds(P, L, R, t, Header);
    ghost var O, E := Order(t), Keys(K, Order(t));
    assert it != Header && lo + m < |E0|;
    p, l, r, t', next := EraseAt(P, L, R, K, t, it);
    PosAfter(O, Order(t'), lo, last);
    DropAt(E0, lo, m);
  }

  /** Taking out the element at lo of E0[..lo] + E0[lo + m..] leaves E0[..lo] + E0[lo + m + 1..]. */
  lemma DropAt(E0: seq<int>, lo: nat, m: nat)
    requires lo + m < |E0|
    ensures var E := E0[..lo] + E0[lo + m..]; E[..lo] + E[lo + 1..] == E0[..lo] + E0[lo + m + 1..]
  {
    var E := E0[..lo] + E0[lo + m..];
    assert E[..lo] == E0[..lo] && E[lo + 1..] == E0[lo + m + 1..];
  }

  /** Node s.id stands in t's order right after the hole's predecessors and its left subtree;
      taking it out leaves them followed by its right subtree and the hole's successors. */
  lemma {:induction false} RemovedAt(t: Tree, z: seq<Frame>, s: Tree)
    requires NoDup(Order(t)) && Plug(z, s) == t && s.Node?
    ensures s.id in Order(t) && IndexOf(Order(t), s.id) == |Pre(z) + Order(s.left)|
    ensures Order(t)[..IndexOf(Order(t), s.id)] + Order(t)[IndexOf(Order(t), s.id) + 1..]
         == Pre(z) + Order(s.left) + Order(s.right) + Post(z)
  {
    SplitAt(z, s);
    var A, B := Pre(z) + Order(s.left), Order(s.right) + Post(z);
    var O := Order(t);
    assert O == A + [s.id] + B && O[|A|] == s.id;
    IndexAt(O, |A|);
    assert O[..|A|] == A && O[|A| + 1..] == B;
  }

  /** The node numbers erase_aux touches when node s.id has at most one child: that child
      x (Nil when there is none) and the parent q, which differ from s.id and each other. */
  lemma OneIds(P: seq<int>, L: seq<int>, R: seq<int>, t: Tree, z: seq<Frame>, s: Tree)
    requires Shaped(P, L, R, t) && Plug(z, s) == t && s.Node? && (s.left.Leaf? || s.right.Leaf?)
    ensures var zn, x, q := s.id, RootId(Child(s)), Top(z);
      && |P| == |L| == |R| && 1 <= zn < |P| && 0 <= q < |P| && (x == Nil || 1 <= x < |P|)
      && x == (if L[zn] != Nil then L[zn] else R[zn]) && L[zn] == RootId(s.left) && R[zn] == RootId(s.right)
      && P[zn] == q && (P[Header] == zn <==> z == []) && (z == [] <==> q == Header)
      && (z != [] ==> (L[q] == zn <==> z[0].toLeft))
      && x != q && x != zn && q != zn && (Child(s).Node? ==> 1 <= x < |P|)
  {
    Place(P, L, R, t, z, s);
    PlaceParent(P, L, R, t, z, s);
    ChildApart(P, L, R, s, Top(z), CtxNodes(z));
  }

  /** The child that takes the place of a node s with at most one child is encoded below it,
      is the node's left link if that is not Nil and its right link otherwise, and is none of
      the nodes outside s. */
  lemma ChildApart(P: seq<int>, L: seq<int>, R: seq<int>, s: Tree, pid: int, outside: set<int>)
    requires Encodes(P, L, R, s, pid) && s.Node? && (s.left.Leaf? || s.right.Leaf?)
    requires Distinct(s) && Nodes(s) !! outside
    ensures var zn, c := s.id, Child(s);
      && 1 <= zn < |P| && zn < |L| && zn < |R| && Encodes(P, L, R, c, zn)
      && L[zn] == RootId(s.left) && R[zn] == RootId(s.right)
      && RootId(c) == (if L[zn] != Nil then L[zn] else R[zn])
      && (RootId(c) == Nil || 1 <= RootId(c) < |P|) && RootId(c) != zn
      && (c.Node? ==> RootId(c) !in outside && 1 <= c.id < |P|)
  {
    var c := Child(s);
    if c.Node? {
      assert c.id in Nodes(c) && Nodes(c) <= Nodes(s);
    }
  }

  /** erase_aux when node s.id has at most one child x (the left one if there is one): x
      takes its parent q, q's link (or the header's root link) names x, and the header's
      leftmost and rightmost move off s.id when it was one of them. */
  method UnlinkOne(P: seq<int>, L: seq<int>, R: seq<int>, ghost t: Tree, ghost z: seq<Frame>, ghost s: Tree, zn: int)
    returns (p: seq<int>, l: seq<int>, r: seq<int>)
    requires Shaped(P, L, R, t) && Plug(z, s) == t && s.Node? && (s.left.Leaf? || s.right.Leaf?)
    requires zn == s.id
    ensures |p| == |P| && Shaped(p, l, r, Plug(z, Child(s))) && Same(P, L, R, p, l, r, zn)
    ensures Order(Plug(z, Child(s))) == Pre(z) + Order(s.left) + Order(s.right) + Post(z)
  {
    OneIds(P, L, R, t, z, s);
    var x := if L[zn] != Nil then L[zn] else R[zn];
    var q := P[zn];
    assert x == RootId(Child(s)) && q == Top(z);
    p, l, r := OneRelink(P, L, R, zn, x, q);
    assert Same(P, L, R, p, l, r, zn);
    SpliceOne(P, L, R, t, z, s, p, l, r);
    var lm, rm := OneEnds(P, L, R, t, z, s, zn, p, l, r, x, q);
    HeaderEnds(p, l, r, Plug(z, Child(s)), lm, rm);
    l, r := l[Header := lm], r[Header := rm];
  }

  /** The link updates of erase_aux for a node zn with at most one child x and parent q:
      x takes parent q, and q's link to zn (the header's root link when q is the header)
      names x. Nothing else changes. */
  method OneRelink(P: seq<int>, L: seq<int>, R: seq<int>, zn: int, x: int, q: int)
    returns (p: seq<int>, l: seq<int>, r: seq<int>)
    requires |P| == |L| == |R| && 1 <= zn < |P| && 0 <= q < |P| && (x == Nil || 1 <= x < |P|)
    requires x != q && x != zn && q != zn && (P[Header] == zn <==> q == Header)
    ensures |p| == |P| && |l| == |L| && |r| == |R| && l[Header] == L[Header] && r[Header] == R[Header]
    ensures x != Nil ==> Moved(P, L, R, p, l, r, x, q)
    ensures q != Header ==> Relinked(P, L, R, p, l, r, q, L[q] == zn, x)
    ensures p[Header] == (if q == Header then x else P[Header])
    ensures forall n :: 1 <= n < |P| && n != x && n != q ==> Same(P, L, R, p, l, r, n)
  {
    p, l, r := P, L, R;
    if x != Nil {
      p := p[x := q];
    }
    if p[Header] == zn {
      p := p[Header := x];
    } else if l[q] == zn {
      l := l[q := x];
    } else {
      r := r[q := x];
    }
  }

  /** The header's new leftmost and rightmost after s.id, with at most one child x and parent
      q, left the tree: when s.id was the leftmost, minimum(x) if it had a right child and q
      otherwise; when it was the rightmost, maximum(x) if it had a left child and q otherwise. */
  method OneEnds(P: seq<int>, L: seq<int>, R: seq<int>, ghost t: Tree, ghost z: seq<Frame>, ghost s: Tree,
                 zn: int, p: seq<int>, l: seq<int>, r: seq<int>, x: int, q: int)
    returns (lm: int, rm: int)
    requires Shaped(P, L, R, t) && Plug(z, s) == t && s.Node? && (s.left.Leaf? || s.right.Leaf?)
    requires zn == s.id && x == RootId(Child(s)) && q == Top(z)
    requires |p| == |P| && |l| == |L| && |r| == |R|
    requires l[Header] == L[Header] && r[Header] == R[Header] && 1 <= zn < |P|
    requires L[zn] == RootId(s.left) && R[zn] == RootId(s.right)
    requires Encodes(p, l, r, Child(s), Top(z))
    requires Order(Plug(z, Child(s))) == Pre(z) + Order(s.left) + Order(s.right) + Post(z)
    ensures var u := Plug(z, Child(s));
      && lm == (if u.Leaf? then Header else Order(u)[0])
      && rm == (if u.Leaf? then Header else Last(Order(u)))
  {
    OneFirst(P, L, R, t, z, s);
    OneLast(P, L, R, t, z, s);
    OrderEmpty(Plug(z, Child(s)));
    lm, rm := l[Header], r[Header];
    if lm == zn {
      if R[zn] != Nil {
        lm := Minimum(p, l, r, x, Child(s), q);
      } else {
        lm := q;
      }
    }
    if rm == zn {
      if L[zn] != Nil {
        rm := Maximum(p, l, r, x, Child(s), q);
      } else {
        rm := q;
      }
    }
  }

  /** The node numbers erase_aux touches when node s.id has two children: its left child l,
      its right child r, its parent q, its successor y, the successor's right child x and the
      successor's parent xp. All differ where the relinking needs them to. */
  lemma TwoIds(P: seq<int>, L: seq<int>, R: seq<int>, t: Tree, z: seq<Frame>, s: Tree)
    requires Shaped(P, L, R, t) && Plug(z, s) == t && s.Node? && s.left.Node? && s.right.Node?
    ensures Encodes(P, L, R, s.right, s.id)
    ensures SuccIds(P, L, R, s, Top(z))
    ensures P[Header] == s.id <==> Top(z) == Header
    ensures z == [] <==> Top(z) == Header
    ensures Top(z) != Header ==> (L[Top(z)] == s.id <==> z[0].toLeft)
  {
    Place(P, L, R, t, z, s);
    PlaceParent(P, L, R, t, z, s);
    SuccApart(P, L, R, s, Top(z), CtxNodes(z));
  }

  /** The integer facts about the nodes of TwoIds, with q the parent of s.id. */
  ghost predicate SuccIds(P: seq<int>, L: seq<int>, R: seq<int>, s: Tree, q: int)
    requires s.Node? && s.left.Node? && s.right.Node?
  {
    var zn, l, r := s.id, s.left.id, s.right.id;
    var y, x, xp := MinOf(s.right), MinRight(s.right), MinParent(s.right, s.id);
    && |P| == |L| == |R|
    && 1 <= zn < |P| && 1 <= l < |P| && 1 <= r < |P| && 1 <= y < |P| && 0 <= q < |P|
    && (x == Nil || 1 <= x < |P|) && 1 <= xp < |P|
    && L[zn] == l && R[zn] == r && P[zn] == q
    && L[y] == Nil && P[y] == xp && R[y] == x
    && (y == r <==> xp == zn)
    && zn != l && zn != r && zn != y && zn != x && zn != q && l != r && l != y && l != x
    && l != xp && l != q && y != q && r != q && x != q && y != x && (x != Nil ==> x != xp)
    && (y != r ==> xp != q && xp != y && x != r && xp != l)
  }

  /** SuccIds holds of a subtree s with two children, encoded under parent q, without
      repeats and apart from the nodes outside it, when q is the header or outside. */
  lemma SuccApart(P: seq<int>, L: seq<int>, R: seq<int>, s: Tree, q: int, outside: set<int>)
    requires s.Node? && s.left.Node? && s.right.Node? && |P| == |L| == |R|
    requires Encodes(P, L, R, s, q) && Distinct(s) && Nodes(s) !! outside
    requires forall n :: n in Nodes(s) ==> 1 <= n < |P|
    requires q == Header || (q in outside && 1 <= q < |P|)
    ensures Encodes(P, L, R, s.right, s.id) && SuccIds(P, L, R, s, q)
  {
    var zn, l, r := s.id, s.left, s.right;
    assert l.id in Nodes(l) && r.id in Nodes(r) && Nodes(r) <= Nodes(s) && Nodes(l) <= Nodes(s);
    assert zn in Nodes(s) && zn != q;
    var y, x, xp := MinOf(r), MinRight(r), MinParent(r, zn);
    MinLinks(P, L, R, r, zn);
    MinApart(r, zn);
    assert y in Nodes(r) && (x == Nil || x in Nodes(r));
    if r.left.Node? {
      assert xp in Nodes(r) && y != r.id;
    } else {
      assert y == r.id && xp == zn;
    }
  }

  /** The link updates of erase_aux for a node zn with left child l, right child r and
      parent q whose successor y (with right child x and parent xp) takes its place: l hangs
      under y; when y lies below r, x takes y's place under xp and r hangs under y; q's link
      to zn (the header's root link when q is the header) names y, which takes parent q.
      Nothing else changes. */
  method TwoRelink(P: seq<int>, L: seq<int>, R: seq<int>, zn: int, q: int, y: int)
    returns (p: seq<int>, l: seq<int>, r: seq<int>)
    requires |P| == |L| == |R| && 1 <= zn < |P| && 0 <= q < |P| && 1 <= y < |P|
    requires 1 <= L[zn] < |P| && 1 <= R[zn] < |P| && 1 <= P[y] < |P| && (R[y] == Nil || 1 <= R[y] < |P|)
    requires P[zn] == q && (P[Header] == zn <==> q == Header) && L[y] == Nil
    requires (y == R[zn] <==> P[y] == zn)
    requires var l0, r0, x, xp := L[zn], R[zn], R[y], P[y];
      && zn != l0 && zn != r0 && zn != y && zn != x && zn != q && l0 != r0 && l0 != y && l0 != x
      && l0 != xp && l0 != q && y != q && r0 != q && x != q && y != x && (x != Nil ==> x != xp)
      && (y != r0 ==> xp != q && xp != y && x != r0 && xp != l0)
    ensures |p| == |P| && |l| == |L| && |r| == |R|
    ensures var l0, r0, x, xp := L[zn], R[zn], R[y], P[y];
      && p[y] == q && l[y] == l0 && r[y] == (if y == r0 then R[y] else r0)
      && Moved(P, L, R, p, l, r, l0, y)
      && (y != r0 ==>
           && p[r0] == y && r[r0] == R[r0] && l[r0] == (if r0 == xp then x else L[r0])
           && (x != Nil ==> Moved(P, L, R, p, l, r, x, xp))
           && (xp != r0 ==> Relinked(P, L, R, p, l, r, xp, true, x)))
      && (q != Header ==> Relinked(P, L, R, p, l, r, q, L[q] == zn, y))
      && p[Header] == (if q == Header then y else P[Header]) && l[Header] == L[Header] && r[Header] == R[Header]
      && (forall n :: 1 <= n < |P| && n != l0 && n != y && n != q && (y != r0 ==> n != r0 && n != x && n != xp)
           ==> Same(P, L, R, p, l, r, n))
  {
    var p1, l1, r1 := TwoBelow(P, L, R, zn, y);
    assert Same(P, L, R, p1, l1, r1, q) && Same(P, L, R, p1, l1, r1, Header);
    p, l, r := OneRelink(p1, l1, r1, zn, y, q);
    assert Same(p1, l1, r1, p, l, r, L[zn]);
    if y != R[zn] {
      assert Same(p1, l1, r1, p, l, r, R[zn]) && Same(p1, l1, r1, p, l, r, P[y]);
      if R[y] != Nil {
        assert Same(p1, l1, r1, p, l, r, R[y]);
      }
    }
    var l0, r0, x, xp := L[zn], R[zn], R[y], P[y];
    forall n | 1 <= n < |P| && n != l0 && n != y && n != q && (y != r0 ==> n != r0 && n != x && n != xp)
      ensures Same(P, L, R, p, l, r, n)
    {
      assert Same(P, L, R, p1, l1, r1, n) && Same(p1, l1, r1, p, l, r, n);
    }
  }

  /** The first half of TwoRelink: l hangs under y and, when y lies below r, y's right child
      x takes y's place under its parent xp and r hangs under y. */
  method TwoBelow(P: seq<int>, L: seq<int>, R: seq<int>, zn: int, y: int)
    returns (p: seq<int>, l: seq<int>, r: seq<int>)
    requires |P| == |L| == |R| && 1 <= zn < |P| && 1 <= y < |P|
    requires 1 <= L[zn] < |P| && 1 <= R[zn] < |P| && 1 <= P[y] < |P| && (R[y] == Nil || 1 <= R[y] < |P|)
    requires var l0, r0, x, xp := L[zn], R[zn], R[y], P[y];
      && l0 != r0 && l0 != y && l0 != x && l0 != xp && y != x && (x != Nil ==> x != xp)
      && (y != r0 ==> xp != y && x != r0)
    ensures |p| == |P| && |l| == |L| && |r| == |R|
    ensures var l0, r0, x, xp := L[zn], R[zn], R[y], P[y];
      && p[y] == P[y] && l[y] == l0 && r[y] == (if y == r0 then R[y] else r0)
      && Moved(P, L, R, p, l, r, l0, y)
      && (y != r0 ==>
           && p[r0] == y && r[r0] == R[r0] && l[r0] == (if r0 == xp then x else L[r0])
           && (x != Nil ==> Moved(P, L, R, p, l, r, x, xp))
           && (xp != r0 ==> Relinked(P, L, R, p, l, r, xp, true, x)))
      && (forall n :: 0 <= n < |P| && n != l0 && n != y && (y != r0 ==> n != r0 && n != x && n != xp)
           ==> Same(P, L, R, p, l, r, n))
  {
    var x := R[y];
    p, l, r := P, L, R;
    p := p[L[zn] := y];
    l := l[y := L[zn]];
    if y != R[zn] {
      var xp := p[y];
      if x != Nil {
        p := p[x := xp];
      }
      l := l[xp := x];
      r := r[y := R[zn]];
      p := p[R[zn] := y];
    }
  }

  /** erase_aux when node s.id has two children: its successor y, the first node of its
      right subtree, takes its left subtree, its parent and (when y lies deeper) its right
      subtree, with y's own right child x moving up to y's old parent. The header's
      leftmost and rightmost stay, since s.id is neither. */
  method UnlinkTwo(P: seq<int>, L: seq<int>, R: seq<int>, ghost t: Tree, ghost z: seq<Frame>, ghost s: Tree, zn: int)
    returns (p: seq<int>, l: seq<int>, r: seq<int>)
    requires Shaped(P, L, R, t) && Plug(z, s) == t && s.Node? && s.left.Node? && s.right.Node?
    requires zn == s.id
    ensures |p| == |P| && Shaped(p, l, r, Plug(z, Spliced(s))) && Same(P, L, R, p, l, r, zn)
    ensures Order(Plug(z, Spliced(s))) == Pre(z) + Order(s.left) + Order(s.right) + Post(z)
  {
    p, l, r := TwoSwitch(P, L, R, t, z, s, zn);
    SpliceTwo(P, L, R, t, z, s, p, l, r);
  }

  /** The link updates of erase_aux's two-children case: the successor is found as the
      minimum of the right subtree and takes s.id's links, as TwoLinks describes. */
  method TwoSwitch(P: seq<int>, L: seq<int>, R: seq<int>, ghost t: Tree, ghost z: seq<Frame>, ghost s: Tree, zn: int)
    returns (p: seq<int>, l: seq<int>, r: seq<int>)
    requires Shaped(P, L, R, t) && Plug(z, s) == t && s.Node? && s.left.Node? && s.right.Node?
    requires zn == s.id
    ensures TwoLinks(P, L, R, p, l, r, z, s) && Same(P, L, R, p, l, r, zn)
  {
    TwoIds(P, L, R, t, z, s);
    assert SuccIds(P, L, R, s, Top(z));
    var y := Minimum(P, L, R, R[zn], s.right, zn);
    p, l, r := TwoRelink(P, L, R, zn, P[zn], y);
  }

  // ---------------------------------------------------------------------------
  // Copying

  /** c is a clone of s: the same shape, each node of c holding in k the key its node of s
      holds in K. */
  ghost predicate Copied(K: seq<int>, s: Tree, k: seq<int>, c: Tree)
  {
    match s
    case Leaf => c.Leaf?
    case Node(sl, x, sr) =>
      && c.Node? && 0 <= x < |K| && 0 <= c.id < |k| && k[c.id] == K[x]
      && Copied(K, sl, k, c.left) && Copied(K, sr, k, c.right)
  }

  /** A clone has as many nodes as the original, and their keys in order are the original's
      keys in order. */
  lemma {:induction false} CopiedKeys(K: seq<int>, s: Tree, k: seq<int>, c: Tree)
    requires Copied(K, s, k, c)
    ensures |Order(c)| == |Order(s)|
    ensures forall i :: 0 <= i < |Order(s)| ==>
      0 <= Order(s)[i] < |K| && 0 <= Order(c)[i] < |k| && k[Order(c)[i]] == K[Order(s)[i]]
  {
    if s.Node? {
      CopiedKeys(K, s.left, k, c.left);
      CopiedKeys(K, s.right, k, c.right);
      var A, B, A', B' := Order(s.left), Order(s.right), Order(c.left), Order(c.right);
      forall i | 0 <= i < |Order(s)|
        ensures 0 <= Order(s)[i] < |K| && 0 <= Order(c)[i] < |k| && k[Order(c)[i]] == K[Order(s)[i]]
      {
        if i < |A| {
          assert Order(s)[i] == A[i] && Order(c)[i] == A'[i];
        } else if i == |A| {
          assert Order(s)[i] == s.id && Order(c)[i] == c.id;
        } else {
          assert Order(s)[i] == B[i - |A| - 1] && Order(c)[i] == B'[i - |A| - 1];
        }
      }
    }
  }

  /** A clone stays one when keys are added after the ones it uses. */
  lemma {:induction false} CopiedGrow(K: seq<int>, s: Tree, k: seq<int>, c: Tree, k': seq<int>)
    requires Copied(K, s, k, c) && |k| <= |k'| && forall i :: 0 <= i < |k| ==> k'[i] == k[i]
    ensures Copied(K, s, k', c)
  {
    if s.Node? {
      CopiedGrow(K, s.left, k, c.left, k');
      CopiedGrow(K, s.right, k, c.right, k');
    }
  }

  /** Clones grafted the same way make a clone of the graft. */
  lemma {:induction false} CopiedGraft(K: seq<int>, a: Tree, k: seq<int>, b: Tree, g: Tree, h: Tree)
    requires Copied(K, a, k, b) && Copied(K, g, k, h)
    ensures Copied(K, Graft(a, g), k, Graft(b, h))
  {
    if a.Node? {
      CopiedGraft(K, a.left, k, b.left, g, h);
    }
  }

  /** copy(x, p): the subtree s at x of the links (P, L, R) with keys K, cloned onto the
      destination slots from |p| on, the clone's root top taking parent pd. The clone has
      the shape and the keys of s, its nodes are new slots, and no slot that was already
      there changes. The root is cloned first; the right subtree of each node down the
      left spine is copied recursively, and the spine itself in a loop. */
  method CopySubtree(P: seq<int>, L: seq<int>, R: seq<int>, K: seq<int>, ghost s: Tree, ghost px: int, x: int,
                     p: seq<int>, l: seq<int>, r: seq<int>, k: seq<int>, pd: int)
    returns (p': seq<int>, l': seq<int>, r': seq<int>, k': seq<int>, ghost s': Tree, top: int)
    requires Encodes(P, L, R, s, px) && s.Node? && s.id == x && |K| == |P|
    requires |p| == |l| == |r| == |k| >= 1
    ensures |p'| == |l'| == |r'| == |k'| > |p|
    ensures s'.Node? && top == s'.id == |p|
    ensures Encodes(p', l', r', s', pd) && Distinct(s') && forall y :: y in Nodes(s') ==> |p| <= y < |p'|
    ensures Copied(K, s, k', s')
    ensures forall y :: 0 <= y < |p| ==> Same(p, l, r, p', l', r', y) && k'[y] == k[y]
    decreases |Order(s)|, 1
  {
    ghost var cc;
    p', l', r', k', cc := CloneNode(P, L, R, K, s, px, x, p, l, r, k, pd);
    top := |p|;
    var q, xs := top, L[x];
    ghost var sc, c := Node(Leaf, x, s.right), s.left;
    while xs != Nil
      invariant Copying(P, L, R, K, s, |p|, pd, p', l', r', k', sc, cc, c, q, xs)
      invariant forall y :: 0 <= y < |p| ==> Same(p, l, r, p', l', r', y) && k'[y] == k[y]
      invariant cc.id == top
      decreases |Order(c)|
    {
      ghost var p0, l0, r0, k0 := p', l', r', k';
      p', l', r', k', sc, cc, c, q, xs := CopyStep(P, L, R, K, s, |p|, pd, p', l', r', k', sc, cc, c, q, xs);
      forall y | 0 <= y < |p| ensures Same(p, l, r, p', l', r', y) && k'[y] == k[y] {
        assert Same(p, l, r, p0, l0, r0, y) && Same(p0, l0, r0, p', l', r', y);
      }
    }
    GraftLeaf(sc);
    s' := cc;
  }

  /** The state of copy's loop down the left spine of s: the part of s above the current
      source node xs is sc, with the subtree c at xs still to be grafted below its first
      node; its clone so far is cc, encoded under pd in the slots from n on, whose first
      node q is the clone of the last spine node. */
  ghost predicate Copying(P: seq<int>, L: seq<int>, R: seq<int>, K: seq<int>, s: Tree, n: int, pd: int,
                          p: seq<int>, l: seq<int>, r: seq<int>, k: seq<int>,
                          sc: Tree, cc: Tree, c: Tree, q: int, xs: int)
  {
    && |p| == |l| == |r| == |k| > n >= 0 && |K| == |P|
    && sc.Node? && cc.Node? && Graft(sc, c) == s && q == MinOf(cc)
    && Encodes(P, L, R, c, MinOf(sc)) && xs == RootId(c)
    && Encodes(p, l, r, cc, pd) && Distinct(cc) && (forall y :: y in Nodes(cc) ==> n <= y < |p|)
    && Copied(K, sc, k, cc)
  }

  /** One turn of copy's loop: y = clone_node(x) with parent p (q here) and x's right
      subtree copied below it, p->left = y, and then one step down: p = y, x = x->left. */
  method CopyStep(P: seq<int>, L: seq<int>, R: seq<int>, K: seq<int>, ghost s: Tree, ghost n: int, pd: int,
                  p: seq<int>, l: seq<int>, r: seq<int>, k: seq<int>,
                  ghost sc: Tree, ghost cc: Tree, ghost c: Tree, q: int, xs: int)
    returns (p': seq<int>, l': seq<int>, r': seq<int>, k': seq<int>,
             ghost sc': Tree, ghost cc': Tree, ghost c': Tree, q': int, xs': int)
    requires Copying(P, L, R, K, s, n, pd, p, l, r, k, sc, cc, c, q, xs) && xs != Nil
    ensures Copying(P, L, R, K, s, n, pd, p', l', r', k', sc', cc', c', q', xs')
    ensures |Order(c')| < |Order(c)| && cc'.id == cc.id
    ensures forall y :: 0 <= y < n ==> Same(p, l, r, p', l', r', y) && k'[y] == k[y]
    decreases |Order(c)|, 1
  {
    ghost var cn;
    p', l', r', k', cn := CloneNode(P, L, R, K, c, MinOf(sc), xs, p, l, r, k, q);
    var y := |p|;
    ghost var p1, l1, r1 := p', l', r';
    l' := l'[q := y];
    q', xs' := y, L[xs];
    sc', cc', c' := Graft(sc, Node(Leaf, xs, c.right)), Graft(cc, cn), c.left;
    GraftTwice(sc, xs, c.right, c.left);
    GraftMin(sc, Node(Leaf, xs, c.right));
    GraftMin(cc, cn);
    assert q in Nodes(cc) && Same(p, l, r, p1, l1, r1, q);
    forall x | x in Nodes(cc) && x != q ensures Same(p, l, r, p', l', r', x) {
      assert Same(p, l, r, p1, l1, r1, x);
    }
    EncodesKeep(p1, l1, r1, p', l', r', cn, q);
    GraftEncodes(p, l, r, p', l', r', cc, pd, cn);
    forall x | x in Nodes(cc) ensures x !in Nodes(cn) {
      assert x < |p|;
    }
    forall z | 0 <= z < n ensures Same(p, l, r, p', l', r', z) && k'[z] == k[z] {
      assert Same(p, l, r, p1, l1, r1, z) && z != q;
    }
    GraftDistinct(cc, cn);
    GraftNodes(cc, cn);
    CopiedGrow(K, sc, k, cc, k');
    CopiedGraft(K, sc, k', cc, Node(Leaf, xs, c.right), cn);
  }

  /** clone_node(x) with parent pa and, when x has a right child, x's right subtree copied
      below the clone: the node cn, with no left child, in the slot |p|, and the slots after
      it, cloning x with its right subtree. */
  method CloneNode(P: seq<int>, L: seq<int>, R: seq<int>, K: seq<int>, ghost c: Tree, ghost cp: int, xs: int,
                   p: seq<int>, l: seq<int>, r: seq<int>, k: seq<int>, pa: int)
    returns (p': seq<int>, l': seq<int>, r': seq<int>, k': seq<int>, ghost cn: Tree)
    requires Encodes(P, L, R, c, cp) && c.Node? && c.id == xs && |K| == |P|
    requires |p| == |l| == |r| == |k| >= 1
    ensures |p'| == |l'| == |r'| == |k'| > |p|
    ensures cn.Node? && cn.left.Leaf? && cn.id == |p|
    ensures Encodes(p', l', r', cn, pa) && Distinct(cn) && forall y :: y in Nodes(cn) ==> |p| <= y < |p'|
    ensures Copied(K, Node(Leaf, xs, c.right), k', cn)
    ensures forall y :: 0 <= y < |p| ==> Same(p, l, r, p', l', r', y) && k'[y] == k[y]
    decreases |Order(c)|, 0
  {
    var y := |p|;
    p', l', r', k' := p + [pa], l + [Nil], r + [Nil], k + [K[xs]];
    cn := Node(Leaf, y, Leaf);
    if R[xs] != Nil {
      var p1, l1, r1, k1, top;
      ghost var cr;
      p1, l1, r1, k1, cr, top := CopySubtree(P, L, R, K, c.right, xs, R[xs], p', l', r', k', y);
      assert Same(p', l', r', p1, l1, r1, y) && k1[y] == k'[y];
      p', l', r', k' := p1, l1, r1[y := top], k1;
      cn := Node(Leaf, y, cr);
      EncodesKeep(p1, l1, r1, p', l', r', cr, y);
      forall z | 0 <= z < |p| ensures Same(p, l, r, p', l', r', z) && k'[z] == k[z] {
        assert Same(p, l, r, p + [pa], l + [Nil], r + [Nil], z) && Same(p + [pa], l + [Nil], r + [Nil], p1, l1, r1, z);
      }
    }
  }

  /** The copy constructor's arena: a new header and, when the tree has a root, copy(root,
      header) as the new root with the new leftmost and rightmost found by minimum and
      maximum. The copy has the same keys in the same order. */
  method CopyArena(P: seq<int>, L: seq<int>, R: seq<int>, K: seq<int>, ghost t: Tree)
    returns (p: seq<int>, l: seq<int>, r: seq<int>, k: seq<int>, ghost t': Tree)
    requires Arena(P, L, R, K, t)
    ensures Arena(p, l, r, k, t') && Keys(k, Order(t')) == Keys(K, Order(t))
  {
    p, l, r, k := [Nil], [Header], [Header], [0];
    if P[Header] == Nil {
      t' := Leaf;
    } else {
      var top;
      p, l, r, k, t', top := CopySubtree(P, L, R, K, t, Header, P[Header], p, l, r, k, Header);
      ghost var p1 := p;
      p := p[Header := top];
      EncodesKeep(p1, l, r, p, l, r, t', Header);
      var lm := Minimum(p, l, r, top, t', Header);
      var rm := Maximum(p, l, r, top, t', Header);
      ghost var l1, r1 := l, r;
      l, r := l[Header := lm], r[Header := rm];
      EncodesKeep(p, l1, r1, p, l, r, t', Header);
      DistinctNoDup(t');
    }
    CopiedKeys(K, t, k, t');
  }

  // ---------------------------------------------------------------------------
  // erase as written

  /** minimum on raw links from x: left links until a node without one, given at most
      fuel steps; None where a null or out-of-range link would be followed. */
  function MinimumLinks(L: seq<int>, x: int, fuel: nat): Option<int>
    decreases fuel
  {
    if !(0 <= x < |L|) then None
    else if L[x] == Nil then Some(x)
    else if fuel == 0 then None
    else MinimumLinks(L, L[x], fuel - 1)
  }

  /** incre's climb on raw links: while node is the right child of p, step up; the final
      (node, p), given at most fuel steps. */
  function ClimbLinks(P: seq<int>, R: seq<int>, node: int, p: int, fuel: nat): (r: Option<(int, int)>)
    requires |P| == |R| && 0 <= node < |R|
    ensures r.Some? ==> 0 <= r.value.0 < |R|
    decreases fuel
  {
    if !(0 <= p < |R|) then None
    else if node != R[p] then Some((node, p))
    else if fuel == 0 then None
    else ClimbLinks(P, R, p, P[p], fuel - 1)
  }

  /** incre as written, on whatever links node has, including the stale links of a node that
      is no longer in the tree. */
  function IncreAsWritten(P: seq<int>, L: seq<int>, R: seq<int>, node: int, fuel: nat): Option<int>
    requires |P| == |L| == |R|
  {
    if !(0 <= node < |P|) then None
    else if R[node] != Nil then MinimumLinks(L, R[node], fuel)
    else match ClimbLinks(P, R, node, P[node], fuel)
      case None => None
      case Some((n, p)) => if R[n] != p then Some(p) else Some(n)
  }

  /** erase(pos) as written, on the tree whose root 1 has the right child 2, erasing 2:
      erase_aux unlinks 2 but leaves 2's own links naming 1 as its parent, and ++ from 2
      then climbs to 1, the element before the erased one, where end() is due (EraseAt, which
      takes the successor before unlinking, returns the header). */
  method EraseNextAsWritten() returns (next: Option<int>, due: int)
    ensures next == Some(1) && due == Header
  {
    next := StaleIncre();
    due := EraseAtLast();
  }

  /** The root 1 with the right child 2: after erase_aux unlinks 2, ++ on 2's stale links
      climbs to 1. */
  method StaleIncre() returns (next: Option<int>)
    ensures next == Some(1)
  {
    var P, L, R := [1, 0, 1], [1, Nil, Nil], [2, 2, Nil];
    ghost var t := Node(Leaf, 1, Node(Leaf, 2, Leaf));
    assert Order(t) == [1, 2];
    assert Encodes(P, L, R, t.right, 1);
    assert Encodes(P, L, R, t, Header) && NoDup(Order(t));
    var p, l, r, t' := Unlink(P, L, R, t, 2);
    assert Order(t') == [1];
    assert t'.Node? && Order(t'.left) == [] && Order(t'.right) == [];
    OrderEmpty(t'.left);
    OrderEmpty(t'.right);
    assert r[1] == Nil && p[2] == 1 && r[2] == Nil;
    next := IncreAsWritten(p, l, r, 2, |p|);
  }

  /** The same tree: EraseAt, which steps on before unlinking, returns end() for 2. */
  method EraseAtLast() returns (due: int)
    ensures due == Header
  {
    var P, L, R, K := [1, 0, 1], [1, Nil, Nil], [2, 2, Nil], [0, 10, 20];
    ghost var t := Node(Leaf, 1, Node(Leaf, 2, Leaf));
    assert Order(t) == [1, 2] && Order(t)[1] == 2;
    assert Encodes(P, L, R, t.right, 1);
    assert Encodes(P, L, R, t, Header) && NoDup(Order(t));
    IndexAt(Order(t), 1);
    var p, l, r;
    ghost var t';
    p, l, r, t', due := EraseAt(P, L, R, K, t, 2);
    assert Pos(t', due) == |Order(t')|;
  }

  /** erase(k) as written, on the keys E in order: erase(first, last) clears the tree when the
      run of k is all of it, and otherwise its loop calls erase(*first++), which is erase(k)
      again on the unchanged tree; fuel bounds the depth of that recursion. None: it does not
      return within fuel calls. */
  function EraseKeyAsWritten(E: seq<int>, k: int, fuel: nat): Option<seq<int>>
  {
    if multiset(E)[k] == |E| then Some([])
    else if multiset(E)[k] == 0 then Some(E)
    else if fuel == 0 then None
    else EraseKeyAsWritten(E, k, fuel - 1)
  }

  /** When some but not all elements equal k, erase(k) as written never returns. */
  lemma {:induction false} EraseKeyAsWrittenDiverges(E: seq<int>, k: int, fuel: nat)
    requires 0 < multiset(E)[k] < |E|
    ensures EraseKeyAsWritten(E, k, fuel) == None
  {
    if fuel > 0 {
      EraseKeyAsWrittenDiverges(E, k, fuel - 1);
    }
  }

  /** The keys 5 and 6: erasing 5 as written does not return however deep the recursion may
      go, where EraseKey removes the one 5 and keeps the 6. */
  lemma EraseKeyAsWrittenOnFiveSix(fuel: nat)
    ensures EraseKeyAsWritten([5, 6], 5, fuel) == None
  {
    assert multiset([5, 6])[5] == 1;
    EraseKeyAsWrittenDiverges([5, 6], 5, fuel);
  }

  class BsTree {
    /** Parent, left and right links of each node. */
    var P: seq<int>
    var L: seq<int>
    var R: seq<int>
    /** K[x]: the key of node x; the header's entry means nothing. */
    var K: seq<int>
    var nodeCount: nat
    ghost var t: Tree

    /** The links form t under the header and its keys ascend in order. */
    ghost predicate Linked()
      reads this
    {
      Arena(P, L, R, K, t)
    }

    /** ... and node_count counts its nodes. */
    ghost predicate Valid()
      reads this
    {
      Linked() && nodeCount == |Order(t)|
    }

    /** The keys in iterator order. */
    ghost function Elements(): (r: seq<int>)
      reads this
      requires Linked()
    {
      Keys(K, Order(t))
    }

    /** The tree's keys ascend in iterator order. */
    lemma ElementsSorted()
      requires Linked()
      ensures Sorted(Elements())
    {
    }

    /** bs_tree() with empty_initialize(): a header whose parent is null and whose left and
        right are itself. */
    constructor ()
      ensures Valid() && Elements() == [] && nodeCount == 0
      ensures P[Header] == Nil && L[Header] == Header && R[Header] == Header
    {
      P, L, R, K := [Nil], [Header], [Header], [0];
      nodeCount := 0;
      t := Leaf;
    }

    /** bs_tree(const bs_tree& x): empty_initialize() when x has no root, and otherwise a
        new header over copy(x.root(), header) with leftmost and rightmost found again;
        node_count is x's. The copy holds x's elements in x's order. */
    constructor Copy(x: BsTree)
      requires x.Valid()
      ensures Valid() && Elements() == x.Elements() && nodeCount == x.nodeCount
    {
      var p, l, r, k;
      ghost var t';
      p, l, r, k, t' := CopyArena(x.P, x.L, x.R, x.K, x.t);
      P, L, R, K, t := p, l, r, k, t';
      nodeCount := x.nodeCount;
    }

    /** begin(): the leftmost node, the header when the tree is empty. */
    function Begin(): (it: int)
      reads this
      requires Valid()
      ensures Points(t, it) && Pos(t, it) == 0
    {
      LeftmostAt();
      L[Header]
    }

    /** The header's left link is the first node in order, or the header itself. */
    lemma LeftmostAt()
      requires Valid()
      ensures Points(t, L[Header]) && Pos(t, L[Header]) == 0
    {
      EncodesIds(P, L, R, t, Header);
      if t.Node? {
        IndexAt(Order(t), 0);
      }
    }

    /** size(): node_count, the number of elements. */
    function Size(): (r: nat)
      reads this
      requires Valid()
      ensures r == |Elements()|
    {
      nodeCount
    }

    /** empty(). */
    function Empty(): (r: bool)
      reads this
      requires Valid()
      ensures r <==> Elements() == []
    {
      nodeCount == 0
    }

    /** clear(): every node is let go and the header is reset; erase(root()) destroying the
        nodes one by one is not modelled (the arena keeps their slots). */
    method Clear()
      requires Valid()
      modifies this
      ensures Valid() && Elements() == [] && K == old(K)
      ensures P[Header] == Nil && L[Header] == Header && R[Header] == Header
    {
      OrderEmpty(t);
      if nodeCount != 0 {
        P := P[Header := Nil];
        L := L[Header := Header];
        R := R[Header := Header];
        nodeCount := 0;
        t := Leaf;
      }
    }

    // -------------------------------------------------------------------------
    // Searching

    /** lower_bound(k): the first element not less than k, or end(). */
    method LowerBound(k: int) returns (y: int)
      requires Valid()
      ensures Points(t, y) && IsLower(Elements(), k, Pos(t, y))
    {
      y := DescendLower(P, L, R, K, t, k);
    }

    /** upper_bound(k): the first element greater than k, or end(). */
    method UpperBound(k: int) returns (y: int)
      requires Valid()
      ensures Points(t, y) && IsUpper(Elements(), k, Pos(t, y))
    {
      y := DescendUpper(P, L, R, K, t, k);
    }

    /** find(k): lower_bound's descent (the source repeats its loop), then end() unless the
        node found has key k. The answer is the first element equal to k, or end() when there
        is none. */
    method Find(k: int) returns (it: int)
      requires Valid()
      ensures Points(t, it)
      ensures it == Header <==> k !in Elements()
      ensures it != Header ==> Elements()[Pos(t, it)] == k
      ensures it != Header ==> forall j :: 0 <= j < Pos(t, it) ==> Elements()[j] < k
    {
      var y := LowerBound(k);
      if y == Header || k < K[y] {
        it := Header;
        ghost var E := Elements();
        if y != Header {
          IndexAt(Order(t), Pos(t, y));
          assert E[Pos(t, y)] == K[y];
        }
      } else {
        it := y;
        IndexAt(Order(t), Pos(t, y));
        assert Elements()[Pos(t, y)] == K[y];
      }
    }

    /** equal_range(k): (lower_bound(k), upper_bound(k)), the run of elements equal to k. */
    method EqualRange(k: int) returns (lo: int, hi: int)
      requires Valid()
      ensures Points(t, lo) && Points(t, hi) && Pos(t, lo) <= Pos(t, hi)
      ensures IsLower(Elements(), k, Pos(t, lo)) && IsUpper(Elements(), k, Pos(t, hi))
      ensures forall j :: Pos(t, lo) <= j < Pos(t, hi) ==> Elements()[j] == k
    {
      lo := LowerBound(k);
      hi := UpperBound(k);
      BoundsCount(Elements(), k, Pos(t, lo), Pos(t, hi));
    }

    /** count(k): the distance from lower_bound(k) to upper_bound(k), stepped with ++; the
        number of elements equal to k. */
    method Count(k: int) returns (n: nat)
      requires Valid()
      ensures n == multiset(Elements())[k]
    {
      var lo, hi := EqualRange(k);
      n := Distance(lo, hi);
      BoundsCount(Elements(), k, Pos(t, lo), Pos(t, hi));
    }

    /** distance(first, last) over tree iterators: the number of ++ steps from first to
        last. */
    method Distance(first: int, last: int) returns (n: nat)
      requires Valid() && Points(t, first) && Points(t, last) && Pos(t, first) <= Pos(t, last)
      ensures n == Pos(t, last) - Pos(t, first)
    {
      n := 0;
      var it := first;
      while it != last
        invariant Points(t, it) && Pos(t, it) == Pos(t, first) + n <= Pos(t, last)
        decreases Pos(t, last) - Pos(t, it)
      {
        PosSame(t, it, last);
        it := Incre(P, L, R, t, it);
        n := n + 1;
      }
    }

    // -------------------------------------------------------------------------
    // Inserting

    /** The descent of insert_equal and insert_unique on the tree's links. */
    method InsertPos(k: int) returns (y: int, comp: bool, ghost z: seq<Frame>)
      requires Valid()
      ensures Plug(z, Leaf) == t && Ctx(P, L, R, z, Nil) && y == Top(z)
      ensures comp <==> (z == [] || z[0].toLeft)
      ensures Order(t) == Pre(z) + Post(z)
      ensures KeysAtMost(K, Pre(z), k) && KeysAbove(K, Post(z), k)
    {
      y, comp, z := DescendInsert(P, L, R, K, t, k);
    }

    /** insert_aux(x, y, v): a new node n with key k hung into the empty hole z below y, as
        y's left child when y is the header or k is less than y's key and as its right child
        otherwise; the header's root, leftmost and rightmost move to n where n becomes them,
        and node_count grows by one. Both callers pass the null x, so the test reduces to y
        and the keys. The new node takes the next free slot of the arena. */
    method InsertAux(ghost z: seq<Frame>, y: int, k: int) returns (n: int)
      requires Valid() && Plug(z, Leaf) == t && Ctx(P, L, R, z, Nil) && y == Top(z)
      requires KeysAtMost(K, Pre(z), k) && KeysAbove(K, Post(z), k)
      modifies this
      ensures Valid() && n == |old(P)| && K == old(K) + [k] && nodeCount == old(nodeCount) + 1
      ensures t == Plug(z, Node(Leaf, n, Leaf)) && Order(t) == Pre(z) + [n] + Post(z)
      ensures Points(t, n) && n != Header && Pos(t, n) == |Pre(z)|
      ensures Elements() == old(Elements())[..|Pre(z)|] + [k] + old(Elements())[|Pre(z)|..]
    {
      P, L, R, K, n := HangLeaf(P, L, R, K, t, z, y, k);
      assert |Order(Plug(z, Node(Leaf, n, Leaf)))| == |Order(t)| + 1;
      nodeCount := nodeCount + 1;
      t := Plug(z, Node(Leaf, n, Leaf));
    }

    /** insert_equal(v): the descent, then insert_aux. The new element goes after every
        element not greater than k, at upper_bound's place. */
    method InsertEqual(k: int) returns (it: int)
      requires Valid()
      modifies this
      ensures Valid() && Points(t, it) && it != Header
      ensures IsUpper(old(Elements()), k, Pos(t, it))
      ensures Elements() == old(Elements())[..Pos(t, it)] + [k] + old(Elements())[Pos(t, it)..]
    {
      var y, comp;
      ghost var z;
      y, comp, z := InsertPos(k);
      HoleUpper(z, k);
      it := InsertAux(z, y, k);
    }

    /** Where a descent for k ends: the nodes before the hole are those whose keys are not
        greater than k. */
    lemma HoleUpper(z: seq<Frame>, k: int)
      requires Valid() && Order(t) == Pre(z) + Post(z)
      requires KeysAtMost(K, Pre(z), k) && KeysAbove(K, Post(z), k)
      ensures IsUpper(Elements(), k, |Pre(z)|)
    {
      forall j | |Pre(z)| <= j < |Order(t)| ensures Order(t)[j] == Post(z)[j - |Pre(z)|] {
      }
    }

    /** insert_unique's look before the hole: iterator(y) when the descent last went right;
        when it last went left, none if y is begin() and --iterator(y) otherwise. first tells
        that nothing comes before the hole; otherwise i is the node right before it. */
    method HoleBefore(ghost z: seq<Frame>, y: int, comp: bool) returns (first: bool, i: int)
      requires Valid() && Plug(z, Leaf) == t && Ctx(P, L, R, z, Nil) && y == Top(z)
      requires Order(t) == Pre(z) + Post(z) && (comp <==> (z == [] || z[0].toLeft))
      ensures first <==> Pre(z) == []
      ensures !first ==> Pre(z) != [] && i == Last(Pre(z)) && Points(t, i) && i != Header
      ensures !first ==> Pos(t, i) == |Pre(z)| - 1 && 0 <= i < |K|
    {
      HoleEnds(P, L, R, t, z);
      EncodesIds(P, L, R, t, Header);
      HoleNeighbours(t, z);
      first, i := false, y;
      if comp {
        if y == L[Header] {
          first := true;
          return;
        }
        i := Decre(P, L, R, t, y);
        assert i == Order(t)[|Pre(z)| - 1];
      }
    }

    /** insert_unique(v): the descent, then a look at the node before the hole (y itself when
        the descent last went right, its predecessor by decre when it last went left, none
        when y is leftmost). k is new exactly when that node's key is less than k or there is
        no such node; then insert_aux adds it, and otherwise nothing changes and the node with
        key k is returned. */
    method InsertUnique(k: int) returns (it: int, inserted: bool)
      requires Valid()
      modifies this
      ensures Valid() && Points(t, it) && it != Header
      ensures inserted <==> k !in old(Elements())
      ensures inserted ==> IsUpper(old(Elements()), k, Pos(t, it))
      ensures inserted ==> Elements() == old(Elements())[..Pos(t, it)] + [k] + old(Elements())[Pos(t, it)..]
      ensures !inserted ==> unchanged(this) && Elements()[Pos(t, it)] == k
    {
      var y, comp;
      ghost var z;
      y, comp, z := InsertPos(k);
      HoleUpper(z, k);
      SplitKeys(K, Pre(z), Post(z), k);
      var first, i := HoleBefore(z, y, comp);
      if first {
        it := InsertAux(z, y, k);
        inserted := true;
        return;
      }
      if K[i] < k {
        it := InsertAux(z, y, k);
        inserted := true;
      } else {
        it, inserted := i, false;
      }
    }

    // -------------------------------------------------------------------------
    // Erasing

    /** erase(pos): erase_aux unlinks pos, node_count drops by one, and the iterator after
        pos comes back. The successor is taken before the unlinking; the source steps ++ from
        the node already unlinked, which goes wrong (see EraseNextAsWritten). */
    method Erase(it: int) returns (next: int)
      requires Valid() && Points(t, it) && it != Header
      modifies this
      ensures Valid() && K == old(K) && nodeCount == old(nodeCount) - 1
      ensures Points(t, next) && Pos(t, next) == old(Pos(t, it))
      ensures Elements() == old(Elements())[..old(Pos(t, it))] + old(Elements())[old(Pos(t, it)) + 1..]
    {
      P, L, R, t, next := EraseAt(P, L, R, K, t, it);
      nodeCount := nodeCount - 1;
    }

    /** erase(first, last): clear() when the range is the whole tree, and otherwise erase
        one element at a time from first until last is reached. The elements between the
        two positions are gone and the others keep their order. */
    method EraseRange(first: int, last: int)
      requires Valid() && Points(t, first) && Points(t, last) && Pos(t, first) <= Pos(t, last)
      modifies this
      ensures Valid() && K == old(K)
      ensures Elements() == old(Elements())[..old(Pos(t, first))] + old(Elements())[old(Pos(t, last))..]
    {
      LeftmostAt();
      if first == L[Header] && last == Header {
        Clear();
      } else {
        EraseSpan(first, last);
      }
    }

    /** erase(first, last)'s loop, erase(first++) until last. */
    method EraseSpan(first: int, last: int)
      requires Valid() && Points(t, first) && Points(t, last) && Pos(t, first) <= Pos(t, last)
      modifies this
      ensures Valid() && K == old(K)
      ensures Elements() == old(Elements())[..old(Pos(t, first))] + old(Elements())[old(Pos(t, last))..]
    {
      var m;
      P, L, R, t, m := EraseFrom(P, L, R, K, t, first, last);
      nodeCount := nodeCount - m;
    }

    /** erase(k): equal_range(k), the distance between its ends, and erase over that range.
        Every element equal to k goes, the others keep their order, and the number erased is
        returned. The source's erase(first, last) passes each element's key back to erase(k)
        (see EraseKeyAsWritten); the range is erased by iterator here. */
    method EraseKey(k: int) returns (n: nat)
      requires Valid()
      modifies this
      ensures Valid() && n == multiset(old(Elements()))[k]
      ensures k !in Elements()
      ensures forall x :: x != k ==> multiset(Elements())[x] == multiset(old(Elements()))[x]
    {
      ghost var E0 := Elements();
      var lo, hi := EqualRange(k);
      n := Distance(lo, hi);
      BoundsCount(E0, k, Pos(t, lo), Pos(t, hi));
      EraseRange(lo, hi);
      EraseRun(E0, k, old(Pos(t, lo)), old(Pos(t, hi)));
    }
  }
}
