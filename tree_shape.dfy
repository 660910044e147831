// The node links of Container/Associative/bs_tree.hpp and rb_tree.hpp. Nodes are numbered:
// node 0 is the header, nodes 1 .. are real nodes, and Nil (-1) is the null link. The links
// are three sequences indexed by node number, P (parent), L (left) and R (right), and the
// tree they form is a ghost value of type Tree whose nodes carry their numbers. The header
// links to the root (P[0]), the leftmost (L[0]) and the rightmost (R[0]) node, and the root
// links back to the header as its parent.
//
// A place in the tree is a zipper: the subtree s there and the frames z from s up to the
// root, innermost first; Plug(z, s) rebuilds the whole tree.
module TreeShape {

  /** The null link. */
  const Nil := -1

  /** The header node, end(). */
  const Header := 0

  datatype Tree = Leaf | Node(left: Tree, id: int, right: Tree)

  /** The number of a subtree's root, Nil for the empty subtree. */
  function RootId(t: Tree): int
  {
    if t.Leaf? then Nil else t.id
  }

  /** The node numbers of t in order, which is the order the iterator visits them in. */
  function Order(t: Tree): seq<int>
  {
    match t
    case Leaf => []
    case Node(l, x, r) => Order(l) + [x] + Order(r)
  }

  /** The links encode t, whose root has parent pid: every node of t is a real node whose
      parent, left and right links name its parent and children in t. */
  ghost predicate Encodes(P: seq<int>, L: seq<int>, R: seq<int>, t: Tree, pid: int)
  {
    match t
    case Leaf => true
    case Node(l, x, r) =>
      && 1 <= x < |P| && x < |L| && x < |R|
      && P[x] == pid && L[x] == RootId(l) && R[x] == RootId(r)
      && Encodes(P, L, R, l, x) && Encodes(P, L, R, r, x)
  }

  /** No node number repeats. */
  ghost predicate NoDup(s: seq<int>)
  {
    forall i, j :: 0 <= i < j < |s| ==> s[i] != s[j]
  }

  /** The links form the tree t under the header: the header's parent is the root, its left
      and right are the leftmost and rightmost nodes, or the header itself when t is empty. */
  ghost predicate Shaped(P: seq<int>, L: seq<int>, R: seq<int>, t: Tree)
  {
    && |P| == |L| == |R| >= 1
    && Encodes(P, L, R, t, Header) && NoDup(Order(t))
    && P[Header] == RootId(t)
    && L[Header] == (if t.Leaf? then Header else Order(t)[0])
    && R[Header] == (if t.Leaf? then Header else Order(t)[|Order(t)| - 1])
  }

  // ---------------------------------------------------------------------------
  // Zippers

  /** One step up from a hole: the hole is the left (toLeft) or right child of node pid,
      whose other child is sib. */
  datatype Frame = Frame(toLeft: bool, pid: int, sib: Tree)

  /** The node a frame describes, with s in the hole. */
  function Fill(f: Frame, s: Tree): Tree
  {
    if f.toLeft then Node(s, f.pid, f.sib) else Node(f.sib, f.pid, s)
  }

  /** The whole tree from a place: subtree s under the frames z, innermost first. */
  function Plug(z: seq<Frame>, s: Tree): Tree
    decreases |z|
  {
    if z == [] then s else Plug(z[1..], Fill(z[0], s))
  }

  /** The parent of the hole: its innermost frame's node, or the header at the root. */
  function Top(z: seq<Frame>): int
  {
    if z == [] then Header else z[0].pid
  }

  /** The nodes before the hole in order. */
  function Pre(z: seq<Frame>): seq<int>
    decreases |z|
  {
    if z == [] then []
    else Pre(z[1..]) + (if z[0].toLeft then [] else Order(z[0].sib) + [z[0].pid])
  }

  /** The nodes after the hole in order. */
  function Post(z: seq<Frame>): seq<int>
    decreases |z|
  {
    if z == [] then []
    else (if z[0].toLeft then [z[0].pid] + Order(z[0].sib) else []) + Post(z[1..])
  }

  /** The frames of z are encoded by the links for a hole whose root is h: each frame's node
      links to its parent, to h or the node below, and to its other child's subtree. */
  ghost predicate Ctx(P: seq<int>, L: seq<int>, R: seq<int>, z: seq<Frame>, h: int)
    decreases |z|
  {
    z == [] ||
    (var f := z[0];
     && 1 <= f.pid < |P| && f.pid < |L| && f.pid < |R|
     && P[f.pid] == Top(z[1..])
     && L[f.pid] == (if f.toLeft then h else RootId(f.sib))
     && R[f.pid] == (if f.toLeft then RootId(f.sib) else h)
     && Encodes(P, L, R, f.sib, f.pid)
     && Ctx(P, L, R, z[1..], f.pid))
  }

  /** The whole tree's order is what lies before the hole, the hole, and what lies after. */
  lemma {:induction false} PlugOrder(z: seq<Frame>, s: Tree)
    ensures Order(Plug(z, s)) == Pre(z) + Order(s) + Post(z)
    decreases |z|
  {
    if z != [] {
      var f := z[0];
      PlugOrder(z[1..], Fill(f, s));
      Regroup(Pre(z[1..]), Order(f.sib), [f.pid], Order(s), Post(z[1..]));
    }
  }

  /** Concatenation regrouped around the middle part, either way round. */
  lemma Regroup<T>(A: seq<T>, X: seq<T>, Y: seq<T>, Z: seq<T>, C: seq<T>)
    ensures A + (Z + Y + X) + C == A + Z + (Y + X + C)
    ensures A + (X + Y + Z) + C == A + (X + Y) + Z + C
  {
  }

  /** The links encode the whole tree exactly when they encode the frames and the hole. */
  lemma {:induction false} PlugEncodes(P: seq<int>, L: seq<int>, R: seq<int>, z: seq<Frame>, s: Tree)
    ensures Encodes(P, L, R, Plug(z, s), Header)
        <==> Ctx(P, L, R, z, RootId(s)) && Encodes(P, L, R, s, Top(z))
    decreases |z|
  {
    if z != [] {
      PlugEncodes(P, L, R, z[1..], Fill(z[0], s));
    }
  }

  /** Adding a frame outermost puts the filled node around the old whole tree. */
  lemma {:induction false} PlugAppend(z: seq<Frame>, f: Frame, s: Tree)
    ensures Plug(z + [f], s) == Fill(f, Plug(z, s))
    decreases |z|
  {
    if z == [] {
      assert [f][1..] == [];
    } else {
      assert (z + [f])[1..] == z[1..] + [f];
      PlugAppend(z[1..], f, Fill(z[0], s));
    }
  }

  /** Every node of t has a place in t. */
  lemma {:induction false} Locate(t: Tree, x: int) returns (z: seq<Frame>, s: Tree)
    requires x in Order(t)
    ensures Plug(z, s) == t && s.Node? && s.id == x
  {
    match t
    case Node(l, y, r) =>
      if x == y {
        z, s := [], t;
      } else if x in Order(l) {
        var z1, s1 := Locate(l, x);
        z, s := z1 + [Frame(true, y, r)], s1;
        PlugAppend(z1, Frame(true, y, r), s1);
      } else {
        assert x in Order(r);
        var z1, s1 := Locate(r, x);
        z, s := z1 + [Frame(false, y, l)], s1;
        PlugAppend(z1, Frame(false, y, l), s1);
      }
  }

  /** Encoded nodes are real nodes within the links. */
  lemma {:induction false} EncodesIds(P: seq<int>, L: seq<int>, R: seq<int>, t: Tree, pid: int)
    requires Encodes(P, L, R, t, pid)
    ensures forall x :: x in Order(t) ==> 1 <= x < |P| && x < |L| && x < |R|
  {
    if t.Node? {
      EncodesIds(P, L, R, t.left, t.id);
      EncodesIds(P, L, R, t.right, t.id);
    }
  }

  /** A subtree's root is one of its nodes. */
  lemma RootIn(t: Tree)
    requires t.Node?
    ensures t.id in Order(t)
  {
  }

  /** Nodes after one another in order that repeats nothing are apart. */
  lemma NoDupApart(A: seq<int>, B: seq<int>, C: seq<int>, x: int)
    requires NoDup(A + B + C) && x in B
    ensures x !in A && x !in C
  {
    var S := A + B + C;
    var j :| 0 <= j < |B| && B[j] == x;
    assert S[|A| + j] == x;
    forall i | 0 <= i < |A| ensures A[i] != x {
      assert S[i] == A[i];
    }
    forall k | 0 <= k < |C| ensures C[k] != x {
      assert S[|A| + |B| + k] == C[k];
    }
  }

  // ---------------------------------------------------------------------------
  // Positions

  /** Where x stands in s. */
  function IndexOf(s: seq<int>, x: int): (r: nat)
    requires x in s
    ensures r < |s| && s[r] == x
  {
    if s[0] == x then 0 else 1 + IndexOf(s[1..], x)
  }

  /** In a sequence that repeats nothing, the node at i stands at i. */
  lemma {:induction false} IndexAt(s: seq<int>, i: int)
    requires NoDup(s) && 0 <= i < |s|
    ensures IndexOf(s, s[i]) == i
  {
  }

  /** An iterator names a node of t or the header. */
  ghost predicate Points(t: Tree, it: int)
  {
    it == Header || it in Order(t)
  }

  /** An iterator's place in the order; the header, end(), comes after every node. */
  ghost function Pos(t: Tree, it: int): nat
    requires Points(t, it)
  {
    if it == Header then |Order(t)| else IndexOf(Order(t), it)
  }

  /** Only the empty tree has no nodes in order. */
  lemma OrderEmpty(t: Tree)
    ensures Order(t) == [] <==> t.Leaf?
  {
  }

  /** Distinct iterators stand at distinct places. */
  lemma PosSame(t: Tree, a: int, b: int)
    requires NoDup(Order(t)) && Points(t, a) && Points(t, b) && a != b
    ensures Pos(t, a) != Pos(t, b)
  {
  }

  /** The last element of a nonempty sequence. */
  function Last(s: seq<int>): int
    requires |s| > 0
  {
    s[|s| - 1]
  }

  /** A stretch of a sequence that repeats nothing repeats nothing. */
  lemma NoDupInfix(S: seq<int>, A: seq<int>, M: seq<int>, B: seq<int>)
    requires NoDup(S) && S == A + M + B
    ensures NoDup(M)
  {
    forall i, j | 0 <= i < j < |M| ensures M[i] != M[j] {
      assert M[i] == S[|A| + i] && M[j] == S[|A| + j];
    }
  }

  /** The parts of a sequence that repeats nothing share nothing. */
  lemma NoDupParts(M: seq<int>, X: seq<int>, y: int, Y: seq<int>)
    requires NoDup(M) && M == X + [y] + Y
    ensures y !in X && y !in Y && forall a :: a in X ==> a !in Y
  {
    forall i | 0 <= i < |X| ensures X[i] != y {
      assert M[i] == X[i] && M[|X|] == y;
    }
    forall k | 0 <= k < |Y| ensures Y[k] != y {
      assert M[|X| + 1 + k] == Y[k] && M[|X|] == y;
    }
    forall a | a in X ensures a !in Y {
      var i :| 0 <= i < |X| && X[i] == a;
      forall k | 0 <= k < |Y| ensures Y[k] != a {
        assert M[|X| + 1 + k] == Y[k] && M[i] == a;
      }
    }
  }

  /** The node above a hole is not in the hole's subtree, and the two children of that node
      share no node. */
  lemma FrameApart(z: seq<Frame>, s: Tree)
    requires NoDup(Order(Plug(z, s))) && z != [] && s.Node?
    ensures z[0].pid !in Order(s) && s.id !in Order(z[0].sib)
  {
    var f := z[0];
    PlugOrder(z[1..], Fill(f, s));
    NoDupInfix(Order(Plug(z, s)), Pre(z[1..]), Order(Fill(f, s)), Post(z[1..]));
    RootIn(s);
    if f.toLeft {
      NoDupParts(Order(Fill(f, s)), Order(s), f.pid, Order(f.sib));
    } else {
      NoDupParts(Order(Fill(f, s)), Order(f.sib), f.pid, Order(s));
    }
  }

  /** Two nodes side by side in the order stand at neighbouring positions. */
  lemma NextPos(t: Tree, A: seq<int>, M: seq<int>, B: seq<int>, j: int)
    requires NoDup(Order(t)) && Order(t) == A + M + B && 0 <= j < |M| - 1
    requires M[j] != Header && M[j + 1] != Header
    ensures Points(t, M[j]) && Points(t, M[j + 1]) && Pos(t, M[j + 1]) == Pos(t, M[j]) + 1
  {
    assert Order(t)[|A| + j] == M[j] && Order(t)[|A| + j + 1] == M[j + 1];
    IndexAt(Order(t), |A| + j);
    IndexAt(Order(t), |A| + j + 1);
  }

  /** Where the order of t is A + B + C, B's first node comes right after A's last. */
  lemma BoundaryPos(t: Tree, A: seq<int>, B: seq<int>, C: seq<int>)
    requires NoDup(Order(t)) && Order(t) == A + B + C && |A| > 0 && |B| > 0
    requires Last(A) != Header && B[0] != Header
    ensures Points(t, Last(A)) && Points(t, B[0]) && Pos(t, B[0]) == Pos(t, Last(A)) + 1
  {
    assert Order(t)[|A| - 1] == Last(A) && Order(t)[|A|] == B[0];
    IndexAt(Order(t), |A| - 1);
    IndexAt(Order(t), |A|);
  }

  /** The last node stands just before the header. */
  lemma LastPos(t: Tree, x: int)
    requires NoDup(Order(t)) && |Order(t)| > 0 && Last(Order(t)) == x && x != Header
    ensures Points(t, x) && Pos(t, Header) == Pos(t, x) + 1
  {
    IndexAt(Order(t), |Order(t)| - 1);
  }

  /** The first node of a right subtree comes right after the subtree's parent. */
  lemma RightFirstPos(t: Tree, z: seq<Frame>, s: Tree)
    requires NoDup(Order(t)) && Plug(z, s) == t && s.Node? && s.right.Node?
    requires s.id != Header && Order(s.right)[0] != Header
    ensures Points(t, s.id) && Points(t, Order(s.right)[0])
    ensures Pos(t, Order(s.right)[0]) == Pos(t, s.id) + 1
  {
    PlugOrder(z, s);
    NextPos(t, Pre(z), Order(s), Post(z), |Order(s.left)|);
  }

  /** The parent of a left child comes right after the left child's last node. */
  lemma {:induction false} LeftLastPos(t: Tree, z: seq<Frame>, s: Tree)
    requires NoDup(Order(t)) && Plug(z, s) == t && z != [] && z[0].toLeft && s.Node?
    requires Last(Order(s)) != Header && z[0].pid != Header
    ensures Points(t, Last(Order(s))) && Points(t, z[0].pid)
    ensures Pos(t, z[0].pid) == Pos(t, Last(Order(s))) + 1
  {
    PlugOrder(z[1..], Fill(z[0], s));
    NextPos(t, Pre(z[1..]), Order(Fill(z[0], s)), Post(z[1..]), |Order(s)| - 1);
  }

  /** The last node of a left subtree comes right before the subtree's parent. */
  lemma {:induction false} LeftLastBefore(t: Tree, z: seq<Frame>, s: Tree)
    requires NoDup(Order(t)) && Plug(z, s) == t && s.Node? && s.left.Node?
    requires s.id != Header && Last(Order(s.left)) != Header
    ensures Points(t, s.id) && Points(t, Last(Order(s.left)))
    ensures Pos(t, s.id) == Pos(t, Last(Order(s.left))) + 1
  {
    PlugOrder(z, s);
    NextPos(t, Pre(z), Order(s), Post(z), |Order(s.left)| - 1);
  }

  /** The parent of a right child comes right before the right child's first node. */
  lemma RightFirstAfter(t: Tree, z: seq<Frame>, s: Tree)
    requires NoDup(Order(t)) && Plug(z, s) == t && z != [] && !z[0].toLeft && s.Node?
    requires Order(s)[0] != Header && z[0].pid != Header
    ensures Points(t, Order(s)[0]) && Points(t, z[0].pid)
    ensures Pos(t, Order(s)[0]) == Pos(t, z[0].pid) + 1
  {
    PlugOrder(z, s);
    assert Last(Pre(z)) == z[0].pid;
    BoundaryPos(t, Pre(z), Order(s), Post(z));
  }

  // ---------------------------------------------------------------------------
  // Node sets and link surgery

  /** The node numbers of t as a set. */
  ghost function Nodes(t: Tree): set<int>
  {
    match t
    case Leaf => {}
    case Node(l, x, r) => Nodes(l) + {x} + Nodes(r)
  }

  lemma {:induction false} NodesOrder(t: Tree)
    ensures forall x :: x in Nodes(t) <==> x in Order(t)
  {
    if t.Node? {
      NodesOrder(t.left);
      NodesOrder(t.right);
    }
  }

  /** No node number repeats in t, stated subtree by subtree. */
  ghost predicate Distinct(t: Tree)
  {
    match t
    case Leaf => true
    case Node(l, x, r) =>
      Distinct(l) && Distinct(r) && x !in Nodes(l) && x !in Nodes(r) && Nodes(l) !! Nodes(r)
  }

  lemma {:induction false} NoDupDistinct(t: Tree)
    requires NoDup(Order(t))
    ensures Distinct(t)
  {
    if t.Node? {
      var A, B := Order(t.left), Order(t.right);
      assert Order(t) == [] + A + ([t.id] + B);
      NoDupInfix(Order(t), [], A, [t.id] + B);
      assert Order(t) == (A + [t.id]) + B + [];
      NoDupInfix(Order(t), A + [t.id], B, []);
      NoDupParts(Order(t), A, t.id, B);
      NodesOrder(t.left);
      NodesOrder(t.right);
      NoDupDistinct(t.left);
      NoDupDistinct(t.right);
      forall a | a in Nodes(t.left) ensures a !in Nodes(t.right) {
        assert a in A;
      }
    }
  }

  /** The nodes of the frames of z: their own nodes and their other children's subtrees. */
  ghost function CtxNodes(z: seq<Frame>): set<int>
    decreases |z|
  {
    if z == [] then {} else {z[0].pid} + Nodes(z[0].sib) + CtxNodes(z[1..])
  }

  /** No node number repeats among the frames of z. */
  ghost predicate CtxDistinct(z: seq<Frame>)
    decreases |z|
  {
    z == [] ||
    (&& Distinct(z[0].sib) && z[0].pid !in Nodes(z[0].sib) && z[0].pid !in CtxNodes(z[1..])
     && Nodes(z[0].sib) !! CtxNodes(z[1..]) && CtxDistinct(z[1..]))
  }

  /** A whole tree without repeats splits into a hole and frames without repeats that share
      no node. */
  lemma {:induction false} PlugDistinct(z: seq<Frame>, s: Tree)
    requires Distinct(Plug(z, s))
    ensures Distinct(s) && CtxDistinct(z) && Nodes(s) !! CtxNodes(z)
    decreases |z|
  {
    if z != [] {
      PlugDistinct(z[1..], Fill(z[0], s));
    }
  }

  /** Node x has the same links in the old links P, L, R and the new links P', L', R'. */
  ghost predicate Same(P: seq<int>, L: seq<int>, R: seq<int>,
                       P': seq<int>, L': seq<int>, R': seq<int>, x: int)
  {
    && 0 <= x < |P| && x < |L| && x < |R| && x < |P'| && x < |L'| && x < |R'|
    && P'[x] == P[x] && L'[x] == L[x] && R'[x] == R[x]
  }

  /** Links that keep every node of t encode t as before. */
  lemma {:induction false} EncodesKeep(P: seq<int>, L: seq<int>, R: seq<int>,
                                       P': seq<int>, L': seq<int>, R': seq<int>, t: Tree, pid: int)
    requires Encodes(P, L, R, t, pid)
    requires forall x :: x in Nodes(t) ==> Same(P, L, R, P', L', R', x)
    ensures Encodes(P', L', R', t, pid)
  {
    if t.Node? {
      assert t.id in Nodes(t) && Same(P, L, R, P', L', R', t.id);
      EncodesKeep(P, L, R, P', L', R', t.left, t.id);
      EncodesKeep(P, L, R, P', L', R', t.right, t.id);
    }
  }

  /** Links that give t's root the parent pid' and keep everything else of t encode t under
      pid'. */
  lemma EncodesMove(P: seq<int>, L: seq<int>, R: seq<int>,
                    P': seq<int>, L': seq<int>, R': seq<int>, t: Tree, pid: int, pid': int)
    requires Encodes(P, L, R, t, pid) && Distinct(t) && t.Node?
    requires t.id < |P'| && t.id < |L'| && t.id < |R'|
    requires P'[t.id] == pid' && L'[t.id] == L[t.id] && R'[t.id] == R[t.id]
    requires forall x :: x in Nodes(t) && x != t.id ==> Same(P, L, R, P', L', R', x)
    ensures Encodes(P', L', R', t, pid')
  {
    EncodesKeep(P, L, R, P', L', R', t.left, t.id);
    EncodesKeep(P, L, R, P', L', R', t.right, t.id);
  }

  /** Encoded nodes are real nodes within the links. */
  lemma EncodesNodes(P: seq<int>, L: seq<int>, R: seq<int>, t: Tree, pid: int)
    requires Encodes(P, L, R, t, pid)
    ensures forall x :: x in Nodes(t) ==> 1 <= x < |P| && x < |L| && x < |R|
  {
    EncodesIds(P, L, R, t, pid);
    NodesOrder(t);
  }

  /** Every frame node is a real node within the links. */
  lemma {:induction false} CtxIds(P: seq<int>, L: seq<int>, R: seq<int>, z: seq<Frame>, h: int)
    requires Ctx(P, L, R, z, h)
    ensures forall x :: x in CtxNodes(z) ==> 1 <= x < |P| && x < |L| && x < |R|
    decreases |z|
  {
    if z != [] {
      EncodesIds(P, L, R, z[0].sib, z[0].pid);
      NodesOrder(z[0].sib);
      CtxIds(P, L, R, z[1..], z[0].pid);
    }
  }

  /** Links that keep every frame node encode the frames as before. */
  lemma {:induction false} CtxKeep(P: seq<int>, L: seq<int>, R: seq<int>,
                                   P': seq<int>, L': seq<int>, R': seq<int>, z: seq<Frame>, h: int)
    requires Ctx(P, L, R, z, h)
    requires forall x :: x in CtxNodes(z) ==> Same(P, L, R, P', L', R', x)
    ensures Ctx(P', L', R', z, h)
    decreases |z|
  {
    if z != [] {
      assert z[0].pid in CtxNodes(z) && Same(P, L, R, P', L', R', z[0].pid);
      EncodesKeep(P, L, R, P', L', R', z[0].sib, z[0].pid);
      CtxKeep(P, L, R, P', L', R', z[1..], z[0].pid);
    }
  }

  /** Links that point the innermost frame's hole at h' instead of h, and keep every other
      frame node, encode the frames around a hole whose root is h'. */
  lemma CtxRelink(P: seq<int>, L: seq<int>, R: seq<int>,
                  P': seq<int>, L': seq<int>, R': seq<int>, z: seq<Frame>, h: int, h': int)
    requires Ctx(P, L, R, z, h) && CtxDistinct(z) && z != []
    requires forall x :: x in CtxNodes(z) && x != z[0].pid ==> Same(P, L, R, P', L', R', x)
    requires z[0].pid < |P'| && z[0].pid < |L'| && z[0].pid < |R'| && P'[z[0].pid] == P[z[0].pid]
    requires L'[z[0].pid] == if z[0].toLeft then h' else L[z[0].pid]
    requires R'[z[0].pid] == if z[0].toLeft then R[z[0].pid] else h'
    ensures Ctx(P', L', R', z, h')
  {
    EncodesKeep(P, L, R, P', L', R', z[0].sib, z[0].pid);
    CtxKeep(P, L, R, P', L', R', z[1..], z[0].pid);
  }

  /** The root of a whole tree with at least one frame is the outermost frame's node,
      whatever the hole holds. */
  lemma {:induction false} PlugRoot(z: seq<Frame>, s: Tree, s': Tree)
    requires z != []
    ensures RootId(Plug(z, s)) == RootId(Plug(z, s'))
    decreases |z|
  {
    if |z| > 1 {
      PlugRoot(z[1..], Fill(z[0], s), Fill(z[0], s'));
    }
  }

  /** With nothing before the hole every frame is entered from the left, so the innermost
      frame's node comes first after the hole. */
  lemma PreEmpty(z: seq<Frame>)
    requires z != [] && Pre(z) == []
    ensures z[0].toLeft && Post(z)[0] == z[0].pid
  {
  }

  /** With nothing after the hole every frame is entered from the right, so the innermost
      frame's node comes last before the hole. */
  lemma PostEmpty(z: seq<Frame>)
    requires z != [] && Post(z) == []
    ensures !z[0].toLeft && Last(Pre(z)) == z[0].pid
  {
  }

  // ---------------------------------------------------------------------------
  // The minimum of a subtree and its removal

  /** The first node of t in order, reached by left links. */
  function MinOf(t: Tree): (m: int)
    requires t.Node?
    ensures m in Nodes(t) && m == Order(t)[0]
  {
    if t.left.Leaf? then t.id else MinOf(t.left)
  }

  /** The parent of MinOf(t), where pid is the parent of t's root. */
  function MinParent(t: Tree, pid: int): (q: int)
    requires t.Node?
    ensures t.left.Node? ==> q in Nodes(t)
    ensures t.left.Leaf? ==> q == pid
  {
    if t.left.Leaf? then pid
    else if t.left.left.Leaf? then t.id
    else MinParent(t.left, t.id)
  }

  /** The right child of MinOf(t), which takes its place when it is removed. */
  function MinRight(t: Tree): (x: int)
    requires t.Node?
    ensures x == Nil || x in Nodes(t)
  {
    if t.left.Leaf? then RootId(t.right) else MinRight(t.left)
  }

  /** t without its first node: the first node's right subtree takes its place. */
  function RemoveMin(t: Tree): (r: Tree)
    requires t.Node?
    ensures Order(r) == Order(t)[1..]
  {
    if t.left.Leaf? then t.right else Node(RemoveMin(t.left), t.id, t.right)
  }

  /** The links at the first node of an encoded subtree: no left child, its parent and its
      right child. */
  lemma {:induction false} MinLinks(P: seq<int>, L: seq<int>, R: seq<int>, t: Tree, pid: int)
    requires Encodes(P, L, R, t, pid) && t.Node?
    ensures 1 <= MinOf(t) < |P| && MinOf(t) < |L| && MinOf(t) < |R|
    ensures L[MinOf(t)] == Nil && P[MinOf(t)] == MinParent(t, pid) && R[MinOf(t)] == MinRight(t)
  {
    if t.left.Node? {
      MinLinks(P, L, R, t.left, t.id);
    }
  }

  /** In a subtree without repeats, the first node is neither its parent nor its right
      child, and the root stays apart from both when the first node lies below it. */
  lemma {:induction false} MinApart(t: Tree, pid: int)
    requires Distinct(t) && t.Node? && Nil !in Nodes(t)
    ensures MinRight(t) != MinOf(t)
    ensures t.left.Node? ==> MinParent(t, pid) != MinOf(t)
    ensures t.left.Node? ==> MinOf(t) != t.id && MinRight(t) != t.id
    ensures t.left.Node? ==> MinOf(t) in Nodes(t.left) && MinParent(t, pid) in Nodes(t.left) + {t.id}
    ensures t.left.Node? ==> MinRight(t) == Nil || MinRight(t) in Nodes(t.left)
    ensures t.left.Node? ==> MinRight(t) != MinParent(t, pid)
  {
    if t.left.Leaf? {
      if t.right.Node? {
        assert t.right.id in Nodes(t.right);
      }
    } else {
      MinApart(t.left, t.id);
    }
  }

  /** Removing the first node of t, when it lies below t's root: its parent's left link takes
      its right child, that child takes its parent, t's root takes parent pid', and every
      other node of t keeps its links. */
  lemma {:induction false} RemoveMinLinks(P: seq<int>, L: seq<int>, R: seq<int>,
                                          P': seq<int>, L': seq<int>, R': seq<int>,
                                          t: Tree, pid: int, pid': int)
    requires Encodes(P, L, R, t, pid) && Distinct(t) && t.Node? && t.left.Node?
    requires forall n :: n in Nodes(t) && n != MinOf(t) ==>
      && 0 <= n < |P| && n < |L| && n < |R| && n < |P'| && n < |L'| && n < |R'| && R'[n] == R[n]
      && L'[n] == (if n == MinParent(t, pid) then MinRight(t) else L[n])
      && P'[n] == (if n == t.id then pid' else if n == MinRight(t) then MinParent(t, pid) else P[n])
    ensures Encodes(P', L', R', RemoveMin(t), pid')
  {
    if t.left.left.Leaf? {
      RemoveMinHere(P, L, R, P', L', R', t, pid, pid');
    } else {
      EncodesNodes(P, L, R, t, pid);
      MinApart(t, pid);
      MinApart(t.left, t.id);
      RemoveMinLinks(P, L, R, P', L', R', t.left, t.id, t.id);
      RemoveMinBelow(P, L, R, P', L', R', t, pid, pid');
    }
  }

  /** RemoveMinLinks when t's left child is the first node. */
  lemma {:induction false} RemoveMinHere(P: seq<int>, L: seq<int>, R: seq<int>,
                                            P': seq<int>, L': seq<int>, R': seq<int>,
                                            t: Tree, pid: int, pid': int)
    requires Encodes(P, L, R, t, pid) && Distinct(t) && t.Node? && t.left.Node? && t.left.left.Leaf?
    requires forall n :: n in Nodes(t) && n != MinOf(t) ==>
      && 0 <= n < |P| && n < |L| && n < |R| && n < |P'| && n < |L'| && n < |R'| && R'[n] == R[n]
      && L'[n] == (if n == MinParent(t, pid) then MinRight(t) else L[n])
      && P'[n] == (if n == t.id then pid' else if n == MinRight(t) then MinParent(t, pid) else P[n])
    ensures Encodes(P', L', R', RemoveMin(t), pid')
  {
    var l, a, b := t.left, t.id, t.right;
    EncodesNodes(P, L, R, t, pid);
    MinApart(t, pid);
    if l.right.Node? {
      EncodesMove(P, L, R, P', L', R', l.right, l.id, a);
    }
    assert forall n :: n in Nodes(b) ==> n !in Nodes(l) && n != a;
    EncodesKeep(P, L, R, P', L', R', b, a);
  }

  /** RemoveMinLinks when the first node lies below t's left child, given the links below
      the left child. */
  lemma {:induction false} RemoveMinBelow(P: seq<int>, L: seq<int>, R: seq<int>,
                                             P': seq<int>, L': seq<int>, R': seq<int>,
                                             t: Tree, pid: int, pid': int)
    requires Encodes(P, L, R, t, pid) && Distinct(t) && t.Node? && t.left.Node? && t.left.left.Node?
    requires forall n :: n in Nodes(t) && n != MinOf(t) ==>
      && 0 <= n < |P| && n < |L| && n < |R| && n < |P'| && n < |L'| && n < |R'| && R'[n] == R[n]
      && L'[n] == (if n == MinParent(t, pid) then MinRight(t) else L[n])
      && P'[n] == (if n == t.id then pid' else if n == MinRight(t) then MinParent(t, pid) else P[n])
    requires Encodes(P', L', R', RemoveMin(t.left), t.id)
    ensures Encodes(P', L', R', RemoveMin(t), pid')
  {
    var l, a, b := t.left, t.id, t.right;
    EncodesNodes(P, L, R, t, pid);
    MinApart(t, pid);
    MinApart(l, a);
    assert forall n :: n in Nodes(b) ==> n !in Nodes(l) && n != a;
    EncodesKeep(P, L, R, P', L', R', b, a);
  }

  // ---------------------------------------------------------------------------
  // Grafting below the first node

  /** t with g in place of the empty left subtree of its first node (g itself when t is
      empty): the shape bs_tree's copy builds down a left spine, one node at a time. g's
      nodes come first in order. */
  function Graft(t: Tree, g: Tree): (r: Tree)
    ensures Order(r) == Order(g) + Order(t)
  {
    match t
    case Leaf => g
    case Node(l, x, rt) => Node(Graft(l, g), x, rt)
  }

  /** Grafting a node without a left subtree, and then g below it, grafts the node with g as
      its left subtree. */
  lemma {:induction false} GraftTwice(t: Tree, x: int, r: Tree, g: Tree)
    ensures Graft(Graft(t, Node(Leaf, x, r)), g) == Graft(t, Node(g, x, r))
  {
    if t.Node? {
      GraftTwice(t.left, x, r, g);
    }
  }

  /** Grafting the empty tree changes nothing. */
  lemma {:induction false} GraftLeaf(t: Tree)
    ensures Graft(t, Leaf) == t
  {
    if t.Node? {
      GraftLeaf(t.left);
    }
  }

  /** A graft has the nodes of both trees. */
  lemma {:induction false} GraftNodes(t: Tree, g: Tree)
    ensures Nodes(Graft(t, g)) == Nodes(g) + Nodes(t)
  {
    if t.Node? {
      GraftNodes(t.left, g);
    }
  }

  /** Two trees without repeats that share no node graft into one without repeats. */
  lemma {:induction false} GraftDistinct(t: Tree, g: Tree)
    requires Distinct(t) && Distinct(g) && Nodes(t) !! Nodes(g)
    ensures Distinct(Graft(t, g))
  {
    if t.Node? {
      GraftNodes(t.left, g);
      GraftDistinct(t.left, g);
    }
  }

  /** Links that keep every node of t, except that t's first node now links left to g's
      root, and that encode g under that node, encode the graft. */
  lemma {:induction false} GraftEncodes(P: seq<int>, L: seq<int>, R: seq<int>,
                                        P': seq<int>, L': seq<int>, R': seq<int>, t: Tree, pid: int, g: Tree)
    requires Encodes(P, L, R, t, pid) && Distinct(t) && t.Node?
    requires forall x :: x in Nodes(t) && x != MinOf(t) ==> Same(P, L, R, P', L', R', x)
    requires 0 <= MinOf(t) < |P| && MinOf(t) < |R| && MinOf(t) < |P'| && MinOf(t) < |L'| && MinOf(t) < |R'|
    requires P'[MinOf(t)] == P[MinOf(t)] && L'[MinOf(t)] == RootId(g) && R'[MinOf(t)] == R[MinOf(t)]
    requires Encodes(P', L', R', g, MinOf(t))
    ensures Encodes(P', L', R', Graft(t, g), pid)
  {
    if t.left.Leaf? {
      EncodesKeep(P, L, R, P', L', R', t.right, t.id);
    } else {
      assert MinOf(t) == MinOf(t.left) && MinOf(t.left) in Nodes(t.left);
      GraftEncodes(P, L, R, P', L', R', t.left, t.id, g);
      EncodesKeep(P, L, R, P', L', R', t.right, t.id);
      assert t.id in Nodes(t) && Same(P, L, R, P', L', R', t.id);
    }
  }

  /** The first node of a graft is the first node of what was grafted. */
  lemma {:induction false} GraftMin(t: Tree, g: Tree)
    requires g.Node?
    ensures MinOf(Graft(t, g)) == MinOf(g)
  {
    if t.Node? {
      GraftMin(t.left, g);
    }
  }

  /** A tree without repeats has no repeats in order. */
  lemma {:induction false} DistinctNoDup(t: Tree)
    requires Distinct(t)
    ensures NoDup(Order(t))
  {
    if t.Node? {
      DistinctNoDup(t.left);
      DistinctNoDup(t.right);
      NodesOrder(t.left);
      NodesOrder(t.right);
      NoDupJoin(Order(t.left), t.id, Order(t.right));
    }
  }

  /** Two sequences without repeats that share nothing, joined by a number in neither. */
  lemma NoDupJoin(A: seq<int>, y: int, B: seq<int>)
    requires NoDup(A) && NoDup(B) && y !in A && y !in B && (forall a :: a in A ==> a !in B)
    ensures NoDup(A + [y] + B)
  {
    var S := A + [y] + B;
    forall i, j | 0 <= i < j < |S| ensures S[i] != S[j] {
      if j < |A| {
        assert S[i] == A[i] && S[j] == A[j];
      } else if j == |A| {
        assert S[i] == A[i] && A[i] in A && S[j] == y;
      } else if i < |A| {
        assert S[i] == A[i] && A[i] in A && S[j] == B[j - |A| - 1] && B[j - |A| - 1] in B;
      } else if i == |A| {
        assert S[i] == y && S[j] == B[j - |A| - 1] && B[j - |A| - 1] in B;
      } else {
        assert S[i] == B[i - |A| - 1] && S[j] == B[j - |A| - 1];
      }
    }
  }

  // ---------------------------------------------------------------------------
  // Descending and linking a new leaf

  /** One step of a descent to the left child of the hole's root s: s becomes the innermost
      frame, entered from the left. */
  lemma GoLeft(P: seq<int>, L: seq<int>, R: seq<int>, z: seq<Frame>, s: Tree)
    requires Ctx(P, L, R, z, RootId(s)) && Encodes(P, L, R, s, Top(z)) && s.Node?
    ensures var z' := [Frame(true, s.id, s.right)] + z;
      && Ctx(P, L, R, z', RootId(s.left)) && Encodes(P, L, R, s.left, Top(z'))
      && Plug(z', s.left) == Plug(z, s) && Top(z') == s.id
      && Pre(z') == Pre(z) && Post(z') == [s.id] + Order(s.right) + Post(z)
  {
    var z' := [Frame(true, s.id, s.right)] + z;
    assert z'[1..] == z;
  }

  /** One step of a descent to the right child of the hole's root s. */
  lemma GoRight(P: seq<int>, L: seq<int>, R: seq<int>, z: seq<Frame>, s: Tree)
    requires Ctx(P, L, R, z, RootId(s)) && Encodes(P, L, R, s, Top(z)) && s.Node?
    ensures var z' := [Frame(false, s.id, s.left)] + z;
      && Ctx(P, L, R, z', RootId(s.right)) && Encodes(P, L, R, s.right, Top(z'))
      && Plug(z', s.right) == Plug(z, s) && Top(z') == s.id
      && Pre(z') == Pre(z) + Order(s.left) + [s.id] && Post(z') == Post(z)
  {
    var z' := [Frame(false, s.id, s.left)] + z;
    assert z'[1..] == z;
  }

  /** Where an empty hole stands: below the header in the empty tree; otherwise as the left
      child of a node that is first in order exactly when the hole is, or as the right child
      of a node that is last in order exactly when the hole is. */
  lemma HoleEnds(P: seq<int>, L: seq<int>, R: seq<int>, t: Tree, z: seq<Frame>)
    requires Shaped(P, L, R, t) && Plug(z, Leaf) == t
    ensures z == [] ==> t == Leaf && Pre(z) == [] && Post(z) == []
    ensures z != [] && z[0].toLeft ==> Post(z) != [] && (Pre(z) == [] <==> z[0].pid == L[Header])
    ensures z != [] && !z[0].toLeft ==> Pre(z) != [] && (Post(z) == [] <==> z[0].pid == R[Header])
  {
    PlugOrder(z, Leaf);
    assert Order(t) == Pre(z) + Post(z);
    if z != [] {
      OrderEmpty(t);
      if z[0].toLeft {
        assert Post(z)[0] == z[0].pid;
        FrontAt(Pre(z), Post(z));
      } else {
        assert Last(Pre(z)) == z[0].pid;
        BackAt(Pre(z), Post(z));
      }
    }
  }

  /** In a sequence without repeats, B's first element is first exactly when nothing comes
      before B. */
  lemma FrontAt(A: seq<int>, B: seq<int>)
    requires NoDup(A + B) && B != []
    ensures A == [] <==> (A + B)[0] == B[0]
  {
    if A != [] {
      assert (A + B)[0] == (A + B)[0 + 0] && (A + B)[|A|] == B[0];
    }
  }

  /** In a sequence without repeats, A's last element is last exactly when nothing comes
      after A. */
  lemma BackAt(A: seq<int>, B: seq<int>)
    requires NoDup(A + B) && A != []
    ensures B == [] <==> Last(A + B) == Last(A)
  {
    if B != [] {
      assert (A + B)[|A| - 1] == Last(A);
    } else {
      assert A + B == A;
    }
  }

  /** A number that is not in a sequence without repeats can be put anywhere in it. */
  lemma NoDupInsert(A: seq<int>, B: seq<int>, n: int)
    requires NoDup(A + B) && n !in A + B
    ensures NoDup(A + [n] + B)
  {
    var S, S' := A + B, A + [n] + B;
    forall i, j | 0 <= i < j < |S'| ensures S'[i] != S'[j] {
      if i < |A| && j > |A| {
        assert S'[i] == S[i] && S'[j] == S[j - 1];
      } else if i > |A| {
        assert S'[i] == S[i - 1] && S'[j] == S[j - 1];
      } else if j < |A| {
        assert S'[i] == S[i] && S'[j] == S[j];
      } else if i == |A| {
        assert S'[j] == S[j - 1];
      } else {
        assert S'[i] == S[i];
      }
    }
  }

  /** A sequence without repeats stays so when an element is taken out. */
  lemma NoDupRemove(A: seq<int>, x: int, B: seq<int>)
    requires NoDup(A + [x] + B)
    ensures NoDup(A + B)
  {
    var S, S' := A + [x] + B, A + B;
    forall i, j | 0 <= i < j < |S'| ensures S'[i] != S'[j] {
      if j < |A| {
        assert S'[i] == S[i] && S'[j] == S[j];
      } else if i < |A| {
        assert S'[i] == S[i] && S'[j] == S[j + 1];
      } else {
        assert S'[i] == S[i + 1] && S'[j] == S[j + 1];
      }
    }
  }

  /** insert_aux's links: a new node n, the next free number, hung as a leaf into the empty
      hole of z below y == Top(z), and the header's root, leftmost and rightmost moved to n
      where n becomes them. The new links form the tree with n in the hole. */
  lemma LinkLeaf(P: seq<int>, L: seq<int>, R: seq<int>, t: Tree, z: seq<Frame>, n: int,
                 P1: seq<int>, L1: seq<int>, R1: seq<int>)
    requires Shaped(P, L, R, t) && Plug(z, Leaf) == t && Ctx(P, L, R, z, Nil) && n == |P|
    requires |P1| == |L1| == |R1| == n + 1
    requires P1[n] == Top(z) && L1[n] == Nil && R1[n] == Nil
    requires forall m :: 1 <= m < n && m != Top(z) ==> Same(P, L, R, P1, L1, R1, m)
    requires z != [] ==> && P1[z[0].pid] == P[z[0].pid]
                         && L1[z[0].pid] == (if z[0].toLeft then n else L[z[0].pid])
                         && R1[z[0].pid] == (if z[0].toLeft then R[z[0].pid] else n)
    requires P1[Header] == (if z == [] then n else P[Header])
    requires L1[Header] == (if Pre(z) == [] then n else L[Header])
    requires R1[Header] == (if Post(z) == [] then n else R[Header])
    ensures Shaped(P1, L1, R1, Plug(z, Node(Leaf, n, Leaf)))
    ensures Order(Plug(z, Node(Leaf, n, Leaf))) == Pre(z) + [n] + Post(z)
  {
    var N := Node(Leaf, n, Leaf);
    PlugOrder(z, Leaf);
    assert Order(N) == [n];
    PlugOrder(z, N);
    OrderEmpty(t);
    LeafEncodes(P, L, R, t, z, n, P1, L1, R1);
    LeafFresh(P, L, R, t, z, n);
    ShapedFrom(P1, L1, R1, Plug(z, N), Pre(z), Post(z), n, L[Header], R[Header]);
  }

  /** Links that encode u under the header with its root there, and header links at the ends
      of u's order A + [n] + B (first and last are the ends of A + B), shape u. */
  lemma ShapedFrom(P1: seq<int>, L1: seq<int>, R1: seq<int>, u: Tree, A: seq<int>, B: seq<int>,
                   n: int, first: int, last: int)
    requires |P1| == |L1| == |R1| >= 1
    requires Encodes(P1, L1, R1, u, Header) && NoDup(Order(u)) && P1[Header] == RootId(u)
    requires Order(u) == A + [n] + B
    requires A + B != [] ==> first == (A + B)[0] && last == Last(A + B)
    requires L1[Header] == (if A == [] then n else first)
    requires R1[Header] == (if B == [] then n else last)
    ensures Shaped(P1, L1, R1, u)
  {
    EndsInsert(A, B, n, first, last);
    OrderEmpty(u);
  }

  /** A new number is not in the tree. */
  lemma LeafFresh(P: seq<int>, L: seq<int>, R: seq<int>, t: Tree, z: seq<Frame>, n: int)
    requires Shaped(P, L, R, t) && n == |P| && Plug(z, Leaf) == t
    ensures NoDup(Order(Plug(z, Node(Leaf, n, Leaf))))
  {
    PlugOrder(z, Leaf);
    assert Order(t) == Pre(z) + Post(z);
    assert Order(Node(Leaf, n, Leaf)) == [n];
    PlugOrder(z, Node(Leaf, n, Leaf));
    EncodesIds(P, L, R, t, Header);
    NoDupInsert(Pre(z), Post(z), n);
  }

  /** The ends of a sequence with an element put between A and B. */
  lemma EndsInsert(A: seq<int>, B: seq<int>, n: int, first: int, last: int)
    requires A + B != [] ==> first == (A + B)[0] && last == Last(A + B)
    ensures (A + [n] + B)[0] == if A == [] then n else first
    ensures Last(A + [n] + B) == if B == [] then n else last
  {
  }

  /** The link part of LinkLeaf: the new links encode the tree with n in the hole, under the
      header. */
  lemma LeafEncodes(P: seq<int>, L: seq<int>, R: seq<int>, t: Tree, z: seq<Frame>, n: int,
                    P1: seq<int>, L1: seq<int>, R1: seq<int>)
    requires Shaped(P, L, R, t) && Plug(z, Leaf) == t && Ctx(P, L, R, z, Nil) && n == |P|
    requires |P1| == |L1| == |R1| == n + 1
    requires P1[n] == Top(z) && L1[n] == Nil && R1[n] == Nil
    requires forall m :: 1 <= m < n && m != Top(z) ==> Same(P, L, R, P1, L1, R1, m)
    requires z != [] ==> && P1[z[0].pid] == P[z[0].pid]
                         && L1[z[0].pid] == (if z[0].toLeft then n else L[z[0].pid])
                         && R1[z[0].pid] == (if z[0].toLeft then R[z[0].pid] else n)
    requires P1[Header] == (if z == [] then n else P[Header])
    ensures Encodes(P1, L1, R1, Plug(z, Node(Leaf, n, Leaf)), Header)
    ensures P1[Header] == RootId(Plug(z, Node(Leaf, n, Leaf)))
  {
    var N := Node(Leaf, n, Leaf);
    PlugEncodes(P1, L1, R1, z, N);
    assert Encodes(P1, L1, R1, N, Top(z));
    if z != [] {
      NoDupDistinct(t);
      PlugDistinct(z, Leaf);
      CtxIds(P, L, R, z, Nil);
      CtxRelink(P, L, R, P1, L1, R1, z, Nil, n);
      PlugRoot(z, Leaf, N);
    }
  }

  // ---------------------------------------------------------------------------
  // Unlinking a node

  /** The root of a whole tree with frames is one of the frame nodes. */
  lemma {:induction false} PlugRootIn(z: seq<Frame>, s: Tree)
    requires z != []
    ensures RootId(Plug(z, s)) in CtxNodes(z)
    decreases |z|
  {
    if |z| > 1 {
      PlugRootIn(z[1..], Fill(z[0], s));
    }
  }

  /** What the links say about the place of node s.id, whose subtree is s under frames z. */
  lemma {:induction false} Place(P: seq<int>, L: seq<int>, R: seq<int>, t: Tree, z: seq<Frame>, s: Tree)
    requires Shaped(P, L, R, t) && Plug(z, s) == t && s.Node?
    ensures Ctx(P, L, R, z, s.id) && Encodes(P, L, R, s, Top(z))
    ensures Distinct(s) && CtxDistinct(z) && Nodes(s) !! CtxNodes(z)
    ensures forall n :: n in Nodes(s) ==> 1 <= n < |P| && n < |L| && n < |R|
    ensures forall n :: n in CtxNodes(z) ==> 1 <= n < |P| && n < |L| && n < |R|
  {
    PlugEncodes(P, L, R, z, s);
    NoDupDistinct(t);
    PlugDistinct(z, s);
    EncodesNodes(P, L, R, s, Top(z));
    CtxIds(P, L, R, z, s.id);
  }

  /** The links around node s.id: its parent is the innermost frame's node (the header at the
      root), which links back to it on the side the frame says. */
  lemma PlaceParent(P: seq<int>, L: seq<int>, R: seq<int>, t: Tree, z: seq<Frame>, s: Tree)
    requires Shaped(P, L, R, t) && Plug(z, s) == t && s.Node?
    requires Ctx(P, L, R, z, s.id) && Encodes(P, L, R, s, Top(z))
    requires Distinct(s) && CtxDistinct(z) && Nodes(s) !! CtxNodes(z)
    ensures z != [] ==> Top(z) in CtxNodes(z)
    ensures P[s.id] == Top(z) && (P[Header] == s.id <==> z == [])
    ensures z != [] ==> (L[Top(z)] == s.id <==> z[0].toLeft)
  {
    assert s.id in Nodes(s);
    if z != [] {
      PlugRootIn(z, s);
      var f := z[0];
      if !f.toLeft && f.sib.Node? {
        assert f.sib.id in Nodes(f.sib);
      }
    }
  }

  /** The child that takes the place of a node with at most one child: the left one if there
      is one, else the right one (possibly empty). */
  function Child(s: Tree): (c: Tree)
    requires s.Node?
    ensures Order(c) == Order(s.left) + Order(s.right) || (s.left.Node? && s.right.Node?)
  {
    if s.left.Node? then s.left else s.right
  }

  /** Node n is within both sets of links and the new links give it parent p and its old
      children. */
  ghost predicate Moved(P: seq<int>, L: seq<int>, R: seq<int>,
                        P': seq<int>, L': seq<int>, R': seq<int>, n: int, p: int)
  {
    && 0 <= n < |P| && n < |L| && n < |R| && n < |P'| && n < |L'| && n < |R'|
    && P'[n] == p && L'[n] == L[n] && R'[n] == R[n]
  }

  /** Node n is within both sets of links and the new links point its left (toLeft) or right
      child at h, keeping the rest. */
  ghost predicate Relinked(P: seq<int>, L: seq<int>, R: seq<int>,
                           P': seq<int>, L': seq<int>, R': seq<int>, n: int, toLeft: bool, h: int)
  {
    && 0 <= n < |P| && n < |L| && n < |R| && n < |P'| && n < |L'| && n < |R'|
    && P'[n] == P[n]
    && L'[n] == (if toLeft then h else L[n])
    && R'[n] == (if toLeft then R[n] else h)
  }

  /** erase_aux when node s.id has at most one child: the child c takes its place under
      frames z. Links that give c's root the parent Top(z), point Top(z) (or the header's root
      link) at c, and keep every other node form the tree without s.id. */
  lemma SpliceOne(P: seq<int>, L: seq<int>, R: seq<int>, t: Tree, z: seq<Frame>, s: Tree,
                  P': seq<int>, L': seq<int>, R': seq<int>)
    requires Shaped(P, L, R, t) && Plug(z, s) == t && s.Node? && (s.left.Leaf? || s.right.Leaf?)
    requires |P'| == |P| && |L'| == |L| && |R'| == |R|
    requires Child(s).Node? ==> Moved(P, L, R, P', L', R', Child(s).id, Top(z))
    requires z != [] ==> Relinked(P, L, R, P', L', R', z[0].pid, z[0].toLeft, RootId(Child(s)))
    requires P'[Header] == (if z == [] then RootId(Child(s)) else P[Header])
    requires forall n :: 1 <= n < |P| && n != RootId(Child(s)) && n != Top(z) ==> Same(P, L, R, P', L', R', n)
    ensures Encodes(P', L', R', Plug(z, Child(s)), Header) && Encodes(P', L', R', Child(s), Top(z))
    ensures P'[Header] == RootId(Plug(z, Child(s)))
    ensures Order(Plug(z, Child(s))) == Pre(z) + Order(s.left) + Order(s.right) + Post(z)
    ensures NoDup(Order(Plug(z, Child(s))))
  {
    var c, q := Child(s), Top(z);
    Place(P, L, R, t, z, s);
    if c.Node? {
      EncodesMove(P, L, R, P', L', R', c, s.id, q);
    }
    assert Encodes(P', L', R', c, q);
    if z != [] {
      CtxRelink(P, L, R, P', L', R', z, s.id, RootId(c));
      PlugRoot(z, s, c);
    }
    assert Ctx(P', L', R', z, RootId(c));
    PlugEncodes(P', L', R', z, c);
    assert Encodes(P', L', R', Plug(z, c), Header);
    SpliceOrder(t, z, s, c);
  }

  /** The order once s.id's subtree s is replaced by c, whose order is s's without s.id. */
  lemma SpliceOrder(t: Tree, z: seq<Frame>, s: Tree, c: Tree)
    requires Plug(z, s) == t && s.Node? && NoDup(Order(t))
    requires Order(c) == Order(s.left) + Order(s.right)
    ensures Order(Plug(z, c)) == Pre(z) + Order(s.left) + Order(s.right) + Post(z)
    ensures NoDup(Order(Plug(z, c)))
  {
    PlugOrder(z, s);
    PlugOrder(z, c);
    NoDupRemoveMid(Pre(z), Order(s.left), s.id, Order(s.right), Post(z));
  }

  /** Taking x out of the middle of a sequence without repeats. */
  lemma NoDupRemoveMid(A: seq<int>, M1: seq<int>, x: int, M2: seq<int>, B: seq<int>)
    requires NoDup(A + (M1 + [x] + M2) + B)
    ensures NoDup(A + (M1 + M2) + B) && A + (M1 + M2) + B == A + M1 + M2 + B
  {
    assert A + (M1 + [x] + M2) + B == (A + M1) + [x] + (M2 + B);
    assert A + (M1 + M2) + B == (A + M1) + (M2 + B);
    NoDupRemove(A + M1, x, M2 + B);
  }

  /** The whole order around node s.id, split at it. */
  lemma SplitAt(z: seq<Frame>, s: Tree)
    requires s.Node?
    ensures Order(Plug(z, s)) == (Pre(z) + Order(s.left)) + [s.id] + (Order(s.right) + Post(z))
    ensures Pre(z) + Order(s.left) + Order(s.right) + Post(z)
         == (Pre(z) + Order(s.left)) + (Order(s.right) + Post(z))
  {
    PlugOrder(z, s);
    assert Order(s) == Order(s.left) + [s.id] + Order(s.right);
    Assoc(Pre(z), Order(s.left), s.id, Order(s.right), Post(z));
  }

  lemma Assoc(A: seq<int>, B: seq<int>, x: int, C: seq<int>, D: seq<int>)
    ensures A + (B + [x] + C) + D == (A + B) + [x] + (C + D)
    ensures A + B + C + D == (A + B) + (C + D)
  {
  }

  /** Taking x out of A + [x] + B: the first element stays unless it was x, and then A was
      empty; the same for the last. */
  lemma EndsRemove(A: seq<int>, x: int, B: seq<int>)
    requires NoDup(A + [x] + B)
    ensures (A + [x] + B)[0] == x ==> A == []
    ensures (A + [x] + B)[0] != x ==> A + B != [] && (A + B)[0] == (A + [x] + B)[0]
    ensures Last(A + [x] + B) == x ==> B == []
    ensures Last(A + [x] + B) != x ==> A + B != [] && Last(A + B) == Last(A + [x] + B)
  {
    var S := A + [x] + B;
    if A != [] {
      assert S[0] == A[0] && S[|A|] == x;
    }
    if B != [] {
      assert S[|S| - 1] == B[|B| - 1] && S[|A|] == x;
    }
  }

  /** Where erase_aux moves the header's leftmost link when node s.id, with at most one
      child, is spliced out: to the first node of the right child, or to the parent, when s.id
      was first; otherwise it stays. */
  lemma OneFirst(P: seq<int>, L: seq<int>, R: seq<int>, t: Tree, z: seq<Frame>, s: Tree)
    requires Shaped(P, L, R, t) && Plug(z, s) == t && s.Node?
    ensures var O := Pre(z) + Order(s.left) + Order(s.right) + Post(z);
      && (L[Header] == s.id ==>
           && s.left.Leaf?
           && (s.right.Node? ==> O != [] && O[0] == Order(s.right)[0])
           && (s.right.Leaf? ==> Top(z) == if O == [] then Header else O[0]))
      && (L[Header] != s.id ==> O != [] && O[0] == L[Header])
  {
    SplitAt(z, s);
    EndsRemove(Pre(z) + Order(s.left), s.id, Order(s.right) + Post(z));
    if L[Header] == s.id {
      OrderEmpty(s.left);
      if s.right.Leaf? && z != [] {
        PreEmpty(z);
      }
    }
  }

  /** The same for the rightmost link: to the last node of the left child, or to the parent,
      when s.id was last; otherwise it stays. */
  lemma OneLast(P: seq<int>, L: seq<int>, R: seq<int>, t: Tree, z: seq<Frame>, s: Tree)
    requires Shaped(P, L, R, t) && Plug(z, s) == t && s.Node?
    ensures var O := Pre(z) + Order(s.left) + Order(s.right) + Post(z);
      && (R[Header] == s.id ==>
           && s.right.Leaf?
           && (s.left.Node? ==> O != [] && Last(O) == Last(Order(s.left)))
           && (s.left.Leaf? ==> Top(z) == if O == [] then Header else Last(O)))
      && (R[Header] != s.id ==> O != [] && Last(O) == R[Header])
  {
    SplitAt(z, s);
    EndsRemove(Pre(z) + Order(s.left), s.id, Order(s.right) + Post(z));
    if R[Header] == s.id {
      OrderEmpty(s.right);
      if s.left.Leaf? && z != [] {
        PostEmpty(z);
      }
    }
  }

  /** The links erase_aux gives when node s.id has two children and its successor
      y == MinOf(s.right) takes its place: y gets s.id's parent and left child (and its right
      child, unless y is that child); the left child and the right child get parent y; the
      successor's right child x moves up to the successor's parent xp; the parent's link (or
      the header's root link) names y; every other node keeps its links. */
  ghost predicate TwoLinks(P: seq<int>, L: seq<int>, R: seq<int>,
                           P': seq<int>, L': seq<int>, R': seq<int>, z: seq<Frame>, s: Tree)
    requires s.Node? && s.left.Node? && s.right.Node?
  {
    var l, r, q := s.left.id, s.right.id, Top(z);
    var y, x, xp := MinOf(s.right), MinRight(s.right), MinParent(s.right, s.id);
    && |P'| == |P| && |L'| == |L| && |R'| == |R|
    && 0 <= y < |P'| && y < |L'| && y < |R'| && y < |R|
    && P'[y] == q && L'[y] == l && R'[y] == (if y == r then R[y] else r)
    && Moved(P, L, R, P', L', R', l, y)
    && (y != r ==>
         && 0 <= r < |P| && r < |L| && r < |R| && r < |P'| && r < |L'| && r < |R'|
         && P'[r] == y && R'[r] == R[r] && L'[r] == (if r == xp then x else L[r])
         && (x != Nil ==> Moved(P, L, R, P', L', R', x, xp))
         && (xp != r ==> Relinked(P, L, R, P', L', R', xp, true, x)))
    && (z != [] ==> Relinked(P, L, R, P', L', R', q, z[0].toLeft, y))
    && P'[Header] == (if z == [] then y else P[Header]) && L'[Header] == L[Header] && R'[Header] == R[Header]
    && (forall n :: 1 <= n < |P| && n != l && n != y && n != q && (y != r ==> n != r && n != x && n != xp)
         ==> Same(P, L, R, P', L', R', n))
  }

  /** The subtree that takes node s.id's place when it has two children: its successor, over
      its left subtree and its right subtree without the successor. */
  function Spliced(s: Tree): (n: Tree)
    requires s.Node? && s.right.Node?
    ensures Order(n) == Order(s.left) + Order(s.right) && n.Node? && n.id == MinOf(s.right)
  {
    var r := RemoveMin(s.right);
    assert [Order(s.right)[0]] + Order(r) == Order(s.right);
    Node(s.left, MinOf(s.right), r)
  }

  /** erase_aux when node s.id has two children: the links TwoLinks describes form the tree
      with Spliced(s) in s's place, which is the old order without s.id. */
  lemma SpliceTwo(P: seq<int>, L: seq<int>, R: seq<int>, t: Tree, z: seq<Frame>, s: Tree,
                  P': seq<int>, L': seq<int>, R': seq<int>)
    requires Shaped(P, L, R, t) && Plug(z, s) == t && s.Node? && s.left.Node? && s.right.Node?
    requires TwoLinks(P, L, R, P', L', R', z, s)
    ensures Shaped(P', L', R', Plug(z, Spliced(s)))
    ensures Order(Plug(z, Spliced(s))) == Pre(z) + Order(s.left) + Order(s.right) + Post(z)
  {
    var N := Spliced(s);
    TwoPlaced(P, L, R, t, z, s, P', L', R');
    PlugEncodes(P', L', R', z, N);
    assert Encodes(P', L', R', Plug(z, N), Header);
    if z != [] {
      PlugRoot(z, s, N);
    }
    SpliceOrder(t, z, s, N);
    TwoEnds(t, z, s);
  }

  /** The successor's new place: Spliced(s) hangs below s's old parent, which now links to it. */
  lemma {:induction false} TwoPlaced(P: seq<int>, L: seq<int>, R: seq<int>, t: Tree, z: seq<Frame>, s: Tree,
                  P': seq<int>, L': seq<int>, R': seq<int>)
    requires Shaped(P, L, R, t) && Plug(z, s) == t && s.Node? && s.left.Node? && s.right.Node?
    requires TwoLinks(P, L, R, P', L', R', z, s)
    ensures Encodes(P', L', R', Spliced(s), Top(z)) && Ctx(P', L', R', z, MinOf(s.right))
  {
    Place(P, L, R, t, z, s);
    TwoApart(P, L, R, t, z, s);
    TwoLeft(P, L, R, t, z, s, P', L', R');
    TwoRight(P, L, R, t, z, s, P', L', R');
    if z != [] {
      CtxRelink(P, L, R, P', L', R', z, s.id, MinOf(s.right));
    }
  }

  /** Which nodes erase_aux's two-child case touches, and that they are apart. */
  lemma TwoApart(P: seq<int>, L: seq<int>, R: seq<int>, t: Tree, z: seq<Frame>, s: Tree)
    requires Shaped(P, L, R, t) && Plug(z, s) == t && s.Node? && s.left.Node? && s.right.Node?
    requires Ctx(P, L, R, z, s.id) && Encodes(P, L, R, s, Top(z))
    requires Distinct(s) && CtxDistinct(z) && Nodes(s) !! CtxNodes(z)
    requires forall n :: n in Nodes(s) ==> 1 <= n < |P| && n < |L| && n < |R|
    requires forall n :: n in CtxNodes(z) ==> 1 <= n < |P| && n < |L| && n < |R|
    ensures var r := s.right; var y, x, xp := MinOf(r), MinRight(r), MinParent(r, s.id);
      && y in Nodes(r) && (x == Nil || x in Nodes(r)) && (r.left.Node? ==> xp in Nodes(r))
      && (r.left.Leaf? <==> y == r.id) && (r.left.Leaf? ==> xp == s.id)
      && x != y && (r.left.Node? ==> xp != y && x != xp && x != r.id)
      && Nil !in Nodes(r)
  {
    var r := s.right;
    assert Nodes(r) <= Nodes(s);
    MinApart(r, s.id);
  }

  /** The left subtree of the successor's new place is s.id's old left subtree, under y. */
  lemma {:induction false} TwoLeft(P: seq<int>, L: seq<int>, R: seq<int>, t: Tree, z: seq<Frame>, s: Tree,
                P': seq<int>, L': seq<int>, R': seq<int>)
    requires Shaped(P, L, R, t) && Plug(z, s) == t && s.Node? && s.left.Node? && s.right.Node?
    requires TwoLinks(P, L, R, P', L', R', z, s)
    requires Ctx(P, L, R, z, s.id) && Encodes(P, L, R, s, Top(z))
    requires Distinct(s) && CtxDistinct(z) && Nodes(s) !! CtxNodes(z)
    requires forall n :: n in Nodes(s) ==> 1 <= n < |P| && n < |L| && n < |R|
    requires forall n :: n in CtxNodes(z) ==> 1 <= n < |P| && n < |L| && n < |R|
    ensures Encodes(P', L', R', s.left, MinOf(s.right))
  {
    TwoApart(P, L, R, t, z, s);
    var l, r := s.left, s.right;
    assert Nodes(l) <= Nodes(s) && Nodes(r) <= Nodes(s);
    assert forall n :: n in Nodes(l) ==> n !in Nodes(r) && n != s.id && n !in CtxNodes(z);
    EncodesMove(P, L, R, P', L', R', l, s.id, MinOf(r));
  }

  /** The right subtree of the successor's new place is s.id's old right subtree without the
      successor, under y. */
  lemma {:induction false} TwoRight(P: seq<int>, L: seq<int>, R: seq<int>, t: Tree, z: seq<Frame>, s: Tree,
                 P': seq<int>, L': seq<int>, R': seq<int>)
    requires Shaped(P, L, R, t) && Plug(z, s) == t && s.Node? && s.left.Node? && s.right.Node?
    requires TwoLinks(P, L, R, P', L', R', z, s)
    requires Ctx(P, L, R, z, s.id) && Encodes(P, L, R, s, Top(z))
    requires Distinct(s) && CtxDistinct(z) && Nodes(s) !! CtxNodes(z)
    requires forall n :: n in Nodes(s) ==> 1 <= n < |P| && n < |L| && n < |R|
    requires forall n :: n in CtxNodes(z) ==> 1 <= n < |P| && n < |L| && n < |R|
    ensures Encodes(P', L', R', RemoveMin(s.right), MinOf(s.right))
  {
    TwoApart(P, L, R, t, z, s);
    var l, r := s.left, s.right;
    var y, x, xp := MinOf(r), MinRight(r), MinParent(r, s.id);
    assert Nodes(l) <= Nodes(s) && Nodes(r) <= Nodes(s);
    MinLinks(P, L, R, r, s.id);
    if r.left.Leaf? {
      assert Nodes(r.right) <= Nodes(r);
      assert forall n :: n in Nodes(r.right) ==> n != y && n !in Nodes(l) && n !in CtxNodes(z);
      EncodesKeep(P, L, R, P', L', R', r.right, y);
    } else {
      assert l.id in Nodes(l);
      forall n | n in Nodes(r) && n != y
        ensures && 0 <= n < |P| && n < |L| && n < |R| && n < |P'| && n < |L'| && n < |R'|
                && R'[n] == R[n] && L'[n] == (if n == xp then x else L[n])
                && P'[n] == (if n == r.id then y else if n == x then xp else P[n])
      {
        assert n !in Nodes(l) && n !in CtxNodes(z) && n != Top(z);
        if n == r.id {
        } else if n == x {
          assert Moved(P, L, R, P', L', R', x, xp);
        } else if n == xp {
          assert Relinked(P, L, R, P', L', R', xp, true, x);
        } else {
          assert Same(P, L, R, P', L', R', n);
        }
      }
      RemoveMinLinks(P, L, R, P', L', R', r, s.id, y);
    }
  }

  /** With two children, s.id is neither first nor last, so the ends stay. */
  lemma TwoEnds(t: Tree, z: seq<Frame>, s: Tree)
    requires Plug(z, s) == t && s.Node? && s.left.Node? && s.right.Node? && NoDup(Order(t))
    ensures var O := Pre(z) + Order(s.left) + Order(s.right) + Post(z);
      Order(t) != [] && O != [] && O[0] == Order(t)[0] && Last(O) == Last(Order(t))
  {
    SplitAt(z, s);
    var A, B := Pre(z) + Order(s.left), Order(s.right) + Post(z);
    assert Order(t) == A + [s.id] + B;
    EndsRemove(A, s.id, B);
    RootIn(s.left);
    RootIn(s.right);
  }

  /** Links that encode t under the header, with the header's root link right, are Shaped once
      the header's leftmost and rightmost links name t's first and last nodes. */
  lemma HeaderEnds(P: seq<int>, L: seq<int>, R: seq<int>, t: Tree, lm: int, rm: int)
    requires |P| == |L| == |R| >= 1
    requires Encodes(P, L, R, t, Header) && NoDup(Order(t)) && P[Header] == RootId(t)
    requires lm == if t.Leaf? then Header else Order(t)[0]
    requires rm == if t.Leaf? then Header else Last(Order(t))
    ensures Shaped(P, L[Header := lm], R[Header := rm], t)
  {
    EncodesNodes(P, L, R, t, Header);
    EncodesKeep(P, L, R, P, L[Header := lm], R[Header := rm], t, Header);
  }

  // ---------------------------------------------------------------------------
  // Walking the links

  /** bs_tree_node::minimum: follow left links from x, the root of subtree s, until there is
      none; the node reached is the first of s in order and has no left child. */
  method Minimum(P: seq<int>, L: seq<int>, R: seq<int>, x: int, ghost s: Tree, ghost pid: int)
    returns (m: int)
    requires Encodes(P, L, R, s, pid) && s.Node? && s.id == x
    ensures 1 <= m < |P| && m < |L| && m < |R|
    ensures m == Order(s)[0] && L[m] == Nil
  {
    m := x;
    ghost var c, cp := s, pid;
    while L[m] != Nil
      invariant Encodes(P, L, R, c, cp) && c.Node? && c.id == m
      invariant Order(c)[0] == Order(s)[0]
      decreases c
    {
      m, cp, c := L[m], c.id, c.left;
    }
  }

  /** bs_tree_node::maximum: follow right links from x, the root of subtree s, until there is
      none; the node reached is the last of s in order and has no right child. */
  method Maximum(P: seq<int>, L: seq<int>, R: seq<int>, x: int, ghost s: Tree, ghost pid: int)
    returns (m: int)
    requires Encodes(P, L, R, s, pid) && s.Node? && s.id == x
    ensures 1 <= m < |P| && m < |L| && m < |R|
    ensures m == Last(Order(s)) && R[m] == Nil
  {
    m := x;
    ghost var c, cp := s, pid;
    while R[m] != Nil
      invariant Encodes(P, L, R, c, cp) && c.Node? && c.id == m
      invariant Last(Order(c)) == Last(Order(s))
      decreases c
    {
      m, cp, c := R[m], c.id, c.right;
    }
  }

  /** bs_tree_iterator::incre: from a node, the next node in order, or the header from the
      last node. Without a right child it climbs while it is a right child; the final test
      R[node] != p tells the last node at the root (where the climb has stepped onto the
      header and p is the root again) from every other case. */
  method Incre(P: seq<int>, L: seq<int>, R: seq<int>, ghost t: Tree, it: int) returns (r: int)
    requires Shaped(P, L, R, t) && it in Order(t)
    ensures Points(t, r) && Points(t, it) && Pos(t, r) == Pos(t, it) + 1
  {
    EncodesIds(P, L, R, t, Header);
    ghost var z, s := Locate(t, it);
    PlugEncodes(P, L, R, z, s);
    if R[it] != Nil {
      r := Minimum(P, L, R, R[it], s.right, it);
      RightFirstPos(t, z, s);
    } else {
      var node, p := it, P[it];
      ghost var zz, ss := z, s;
      while node == R[p]
        invariant 0 <= p < |P| && 0 <= node < |R|
        invariant || (&& node != Header && Plug(zz, ss) == t && ss.Node? && ss.id == node
                      && p == Top(zz) && Ctx(P, L, R, zz, node) && Encodes(P, L, R, ss, p)
                      && Last(Order(ss)) == it)
                  || (node == Header && t.Node? && p == t.id && it == t.id && Last(Order(t)) == it)
        decreases if node == Header then 0 else |zz| + 1
      {
        if node != Header && zz != [] {
          FrameApart(zz, ss);
          zz, ss := zz[1..], Fill(zz[0], ss);
        }
        node, p := p, P[p];
      }
      if node != Header && zz != [] {
        FrameApart(zz, ss);
        if ss.right.Node? {
          RootIn(ss.right);
        }
      }
      if R[node] != p {
        node := p;
      }
      r := node;
      if r == Header {
        LastPos(t, it);
      } else {
        LeftLastPos(t, zz, ss);
      }
    }
  }

  /** bs_tree_iterator::decre with the header recognised by identity: from the header, the
      last node (the header's right link); from any other node, the previous node in order.
      Stepping back from the first node is not defined. */
  method Decre(P: seq<int>, L: seq<int>, R: seq<int>, ghost t: Tree, it: int) returns (r: int)
    requires Shaped(P, L, R, t) && Points(t, it) && Pos(t, it) > 0
    ensures Points(t, r) && Pos(t, r) == Pos(t, it) - 1
  {
    if it == Header {
      EncodesIds(P, L, R, t, Header);
      r := R[Header];
      assert r in Order(t);
      LastPos(t, r);
    } else {
      r := DecreNode(P, L, R, t, it);
    }
  }

  /** The two cases of decre below a real node: the maximum of the left subtree, or, without
      one, the parent reached by climbing while the node is a left child. */
  method DecreNode(P: seq<int>, L: seq<int>, R: seq<int>, ghost t: Tree, it: int) returns (r: int)
    requires Shaped(P, L, R, t) && it in Order(t) && Pos(t, it) > 0
    ensures Points(t, r) && Points(t, it) && Pos(t, r) == Pos(t, it) - 1
  {
    EncodesIds(P, L, R, t, Header);
    ghost var z, s := Locate(t, it);
    PlugEncodes(P, L, R, z, s);
    if L[it] != Nil {
      r := Maximum(P, L, R, L[it], s.left, it);
      LeftLastBefore(t, z, s);
    } else {
      var node, p := it, P[it];
      ghost var zz, ss := z, s;
      while node == L[p]
        invariant 0 <= p < |P| && 0 <= node < |L|
        invariant node != Header && Plug(zz, ss) == t && ss.Node? && ss.id == node && zz != []
        invariant p == Top(zz) && Ctx(P, L, R, zz, node) && Encodes(P, L, R, ss, p)
        invariant Order(ss)[0] == it
        decreases |zz|
      {
        FrameApart(zz, ss);
        zz, ss := zz[1..], Fill(zz[0], ss);
        node, p := p, P[p];
      }
      FrameApart(zz, ss);
      r := p;
      RightFirstAfter(t, zz, ss);
    }
  }

  /** decre's first test as written: a node whose parent's parent is the node itself is
      taken for the header, and decre moves to its right link. */
  predicate HeaderTestAsWritten(P: seq<int>, it: int)
  {
    0 <= it < |P| && 0 <= P[it] < |P| && P[P[it]] == it
  }

  /** The header passes the test, and so does the root, since the root and the header are
      each other's parent: decre from the root takes the root's right link instead of its
      predecessor. */
  lemma HeaderTestAsWrittenAtRoot(P: seq<int>, L: seq<int>, R: seq<int>, t: Tree)
    requires Shaped(P, L, R, t) && t.Node?
    ensures HeaderTestAsWritten(P, Header) && HeaderTestAsWritten(P, t.id) && t.id != Header
  {
  }

  /** The links of the tree whose root 1 has the left child 2. */
  lemma RootWithLeft()
    ensures var t := Node(Node(Leaf, 2, Leaf), 1, Leaf);
      && Shaped([1, 0, 1], [2, 2, Nil], [1, Nil, Nil], t) && Order(t) == [2, 1]
  {
    var P, L, R := [1, 0, 1], [2, 2, Nil], [1, Nil, Nil];
    var t := Node(Node(Leaf, 2, Leaf), 1, Leaf);
    assert Order(t) == [2, 1] && Order(t)[0] == 2 && Order(t)[1] == 1;
    assert P[Header] == 1 && L[Header] == 2 && R[Header] == 1;
    assert RootId(t) == 1 && RootId(t.left) == 2 && RootId(t.right) == Nil;
    assert Encodes(P, L, R, Leaf, 2) && Encodes(P, L, R, Leaf, 1);
    assert Encodes(P, L, R, t.left, 1);
    assert Encodes(P, L, R, t, Header);
  }

  /** The root 1 with the left child 2: decre as written from the root goes to the root's
      right link, the null link, where Decre gives 2. */
  method DecreAsWrittenAtRoot() returns (asWritten: int, due: int)
    ensures asWritten == Nil && due == 2
  {
    var P, L, R := [1, 0, 1], [2, 2, Nil], [1, Nil, Nil];
    ghost var t := Node(Node(Leaf, 2, Leaf), 1, Leaf);
    RootWithLeft();
    IndexAt(Order(t), 1);
    assert HeaderTestAsWritten(P, 1);
    asWritten := R[1];
    due := Decre(P, L, R, t, 1);
    IndexAt(Order(t), 0);
  }
}
