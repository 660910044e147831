// Container/Associative/rb_tree.hpp: the red-black tree's nodes, iterator and header. The
// nodes have the links of module TreeShape (node 0 the header, Nil the null link) and a
// colour each, C[x]. minimum, maximum and incre are the same code as bs_tree's and are
// TreeShape.Minimum, TreeShape.Maximum and TreeShape.Incre; what the colour changes is
// decre's test for the header.
//
// The rotations and the rebalancing are only declared in the source; RotateLeft and
// RotateRight below are standard rotations written for the declared signatures, and go
// beyond the source.
module RbTree {
  import opened TreeShape

  /** rb_tree_color_t is bool: red is false and black is true. */
  const Red := false
  const Black := true

  /** The links form t and every slot has a colour, with the header red and the root black:
      the colouring decre's header test relies on. */
  ghost predicate Colored(P: seq<int>, L: seq<int>, R: seq<int>, C: seq<bool>, t: Tree)
  {
    Shaped(P, L, R, t) && |C| == |P| && C[Header] == Red && (t.Node? ==> C[t.id] == Black)
  }

  /** A node's parent's parent is the node itself only at the header and at the root, which
      are each other's parent. */
  lemma GrandparentTest(P: seq<int>, L: seq<int>, R: seq<int>, t: Tree, it: int)
    requires Shaped(P, L, R, t) && t.Node? && Points(t, it)
    ensures 0 <= it < |P| && 0 <= P[it] < |P|
    ensures P[P[it]] == it <==> it == Header || it == t.id
  {
    EncodesIds(P, L, R, t, Header);
    RootIn(t);
    if it != Header {
      var z, s := Locate(t, it);
      Place(P, L, R, t, z, s);
      PlaceParent(P, L, R, t, z, s);
      assert s.id in Nodes(s);
      if z != [] {
        PlugRootIn(z, s);
        assert t.id in CtxNodes(z) && it !in CtxNodes(z);
        assert P[z[0].pid] == Top(z[1..]);
        if z[1..] != [] {
          assert z[1..][0].pid in CtxNodes(z[1..]) && CtxNodes(z[1..]) <= CtxNodes(z);
        }
      }
    }
  }

  // ---------------------------------------------------------------------------
  // The header accessors

  /** root(): the header's parent link, the root, null when the tree is empty. */
  function Root(P: seq<int>, L: seq<int>, R: seq<int>, C: seq<bool>, ghost t: Tree): (r: int)
    requires Colored(P, L, R, C, t)
    ensures r == RootId(t) && (t.Node? ==> C[r] == Black)
  {
    P[Header]
  }

  /** leftmost(): the header's left link, the first node, or the header itself when the tree
      is empty. */
  function Leftmost(P: seq<int>, L: seq<int>, R: seq<int>, C: seq<bool>, ghost t: Tree): (r: int)
    requires Colored(P, L, R, C, t)
    ensures Points(t, r) && Pos(t, r) == 0 && (r == Header <==> t.Leaf?)
  {
    EndLinks(P, L, R, t);
    L[Header]
  }

  /** rightmost(): the header's right link, the last node, or the header itself when the tree
      is empty. */
  function Rightmost(P: seq<int>, L: seq<int>, R: seq<int>, C: seq<bool>, ghost t: Tree): (r: int)
    requires Colored(P, L, R, C, t)
    ensures Points(t, r) && (r == Header <==> t.Leaf?)
    ensures t.Node? ==> Pos(t, r) == |Order(t)| - 1
  {
    EndLinks(P, L, R, t);
    R[Header]
  }

  /** The header's left and right links are the first and last positions. */
  lemma EndLinks(P: seq<int>, L: seq<int>, R: seq<int>, t: Tree)
    requires Shaped(P, L, R, t)
    ensures Points(t, L[Header]) && Pos(t, L[Header]) == 0 && (L[Header] == Header <==> t.Leaf?)
    ensures Points(t, R[Header]) && (R[Header] == Header <==> t.Leaf?)
    ensures t.Node? ==> Pos(t, R[Header]) == |Order(t)| - 1
  {
    OrderEmpty(t);
    if t.Node? {
      IndexAt(Order(t), 0);
      IndexAt(Order(t), |Order(t)| - 1);
      EncodesIds(P, L, R, t, Header);
    }
  }

  // ---------------------------------------------------------------------------
  // Stepping back

  /** rb_tree_iterator::decre with the header test meant: a red node whose parent's parent is
      itself is the header, and decre moves to its right link, the last node; any other node
      steps back as in bs_tree. The header is the only node to pass the test, the root
      failing it by its colour, and the colours do not change. */
  method Decre(P: seq<int>, L: seq<int>, R: seq<int>, C: seq<bool>, ghost t: Tree, it: int) returns (r: int)
    requires Colored(P, L, R, C, t) && Points(t, it) && Pos(t, it) > 0
    ensures Points(t, r) && Pos(t, r) == Pos(t, it) - 1
  {
    OrderEmpty(t);
    GrandparentTest(P, L, R, t, it);
    EncodesIds(P, L, R, t, Header);
    if C[it] == Red && P[P[it]] == it {
      r := R[it];
      assert r in Order(t);
      LastPos(t, r);
    } else {
      r := DecreNode(P, L, R, t, it);
    }
  }

  // ---------------------------------------------------------------------------
  // Rotations (beyond the source: only their signatures are given)

  /** rb_tree_rotate_left(x, root): x's right child y takes x's place, x becomes y's left
      child, and y's old left subtree becomes x's right subtree; when x is the root, the
      root (the header's parent link, passed by reference) becomes y. The order of the
      nodes does not change, nor do the header's leftmost and rightmost. */
  method RotateLeft(P: seq<int>, L: seq<int>, R: seq<int>, ghost t: Tree, x: int)
    returns (p: seq<int>, l: seq<int>, r: seq<int>, ghost t': Tree)
    requires Shaped(P, L, R, t) && x in Order(t) && 0 <= x < |R| && R[x] != Nil
    ensures |p| == |P| && Shaped(p, l, r, t') && Order(t') == Order(t)
    ensures 0 <= R[x] < |p| && 0 <= x < |p|
    ensures p[R[x]] == P[x] && l[R[x]] == x && p[x] == R[x]
    ensures p[Header] == (if P[Header] == x then R[x] else P[Header])
  {
    ghost var z, s := Site(P, L, R, t, x);
    ghost var a, y, b, c := s.left, s.right.id, s.right.left, s.right.right;
    assert y in Nodes(s.right) && (b.Node? ==> b.id in Nodes(b));
    p, l, r := LeftLinks(P, L, R, x, P[x]);
    ghost var s' := Node(Node(a, x, b), y, c);
    LeftRotated(P, L, R, p, l, r, s, Top(z));
    forall n | n in CtxNodes(z) && n != Top(z) ensures Same(P, L, R, p, l, r, n) {
      assert n !in Nodes(s);
    }
    Rotated(P, L, R, z, s, s', p, l, r);
    t' := Plug(z, s');
    LeftOrder(z, s);
    if z != [] {
      PlugRoot(z, s, s');
    }
    Reshaped(P, L, R, t, t', p, l, r);
  }

  /** Where node x sits: its subtree s under frames z, with the facts about their links. */
  lemma Site(P: seq<int>, L: seq<int>, R: seq<int>, t: Tree, x: int) returns (z: seq<Frame>, s: Tree)
    requires Shaped(P, L, R, t) && x in Order(t)
    ensures Plug(z, s) == t && s.Node? && s.id == x
    ensures Ctx(P, L, R, z, x) && CtxDistinct(z) && Encodes(P, L, R, s, Top(z)) && Distinct(s)
    ensures 0 <= Top(z) < |P| && Top(z) !in Nodes(s) && P[x] == Top(z)
    ensures (P[Header] == x <==> Top(z) == Header) && (z == [] <==> Top(z) == Header)
    ensures z != [] ==> Top(z) == z[0].pid && (L[Top(z)] == x <==> z[0].toLeft)
    ensures forall n :: n in CtxNodes(z) ==> n !in Nodes(s) && 1 <= n < |P|
    ensures forall n :: n in Nodes(s) ==> 1 <= n < |P| && n < |L| && n < |R|
  {
    z, s := Locate(t, x);
    Place(P, L, R, t, z, s);
    PlaceParent(P, L, R, t, z, s);
  }

  /** The link updates of rb_tree_rotate_left at x, with parent q, right child y and y's
      left child b. */
  method LeftLinks(P: seq<int>, L: seq<int>, R: seq<int>, x: int, q: int)
    returns (p: seq<int>, l: seq<int>, r: seq<int>)
    requires |P| == |L| == |R| && 1 <= x < |P| && 0 <= q < |P| && P[x] == q
    requires 1 <= R[x] < |P| && (L[R[x]] == Nil || 1 <= L[R[x]] < |P|)
    requires var y, b := R[x], L[R[x]]; x != y && q != x && q != y && b != x && b != y && b != q
    requires P[Header] == x <==> q == Header
    ensures |p| == |P| && |l| == |L| && |r| == |R|
    ensures var y, b := R[x], L[R[x]];
      && p[x] == y && l[x] == L[x] && r[x] == b
      && p[y] == q && l[y] == x && r[y] == R[y]
      && (b != Nil ==> Moved(P, L, R, p, l, r, b, x))
      && (q != Header ==> Relinked(P, L, R, p, l, r, q, L[q] == x, y))
      && p[Header] == (if q == Header then y else P[Header]) && l[Header] == L[Header] && r[Header] == R[Header]
      && forall n :: 1 <= n < |P| && n != x && n != y && n != q && n != b ==> Same(P, L, R, p, l, r, n)
  {
    var y := R[x];
    p, l, r := P, L, R;
    r := r[x := l[y]];
    if l[y] != Nil {
      p := p[l[y] := x];
    }
    p := p[y := p[x]];
    if x == p[Header] {
      p := p[Header := y];
    } else if x == l[p[x]] {
      l := l[p[x] := y];
    } else {
      r := r[p[x] := y];
    }
    l := l[y := x];
    p := p[x := y];
  }

  /** The links after a left rotation at s's root encode the rotated subtree. */
  lemma {:induction false} LeftRotated(P: seq<int>, L: seq<int>, R: seq<int>, p: seq<int>, l: seq<int>, r: seq<int>, s: Tree, q: int)
    requires Encodes(P, L, R, s, q) && Distinct(s) && s.Node? && s.right.Node? && q !in Nodes(s)
    requires 1 <= s.right.id < |P| && s.right.id < |L| && s.right.id < |R| && |p| == |P| && |l| == |L| && |r| == |R|
    requires var x, y, b := s.id, s.right.id, RootId(s.right.left);
      && p[x] == y && l[x] == L[x] && r[x] == b
      && p[y] == q && l[y] == x && r[y] == R[y]
      && (b != Nil ==> Moved(P, L, R, p, l, r, b, x))
      && forall n :: 1 <= n < |P| && n != x && n != y && n != q && n != b ==> Same(P, L, R, p, l, r, n)
    ensures Encodes(p, l, r, Node(Node(s.left, s.id, s.right.left), s.right.id, s.right.right), q)
  {
    var a, x, y, b, c := s.left, s.id, s.right.id, s.right.left, s.right.right;
    EncodesNodes(P, L, R, s, q);
    assert y in Nodes(s.right) && b.Node? ==> b.id in Nodes(b);
    forall n | n in Nodes(a) ensures Same(P, L, R, p, l, r, n) {
      assert n != y && n != x && (b.Node? ==> n != b.id);
    }
    EncodesKeep(P, L, R, p, l, r, a, x);
    forall n | n in Nodes(c) ensures Same(P, L, R, p, l, r, n) {
      assert n != y && n != x && (b.Node? ==> n != b.id);
    }
    EncodesKeep(P, L, R, p, l, r, c, y);
    if b.Node? {
      assert b.id in Nodes(b);
      EncodesMove(P, L, R, p, l, r, b, y, x);
    }
  }

  /** rb_tree_rotate_right(x, root): x's left child y takes x's place, x becomes y's right
      child, and y's old right subtree becomes x's left subtree; when x is the root, the
      root becomes y. The order of the nodes does not change, nor do the header's leftmost
      and rightmost. */
  method RotateRight(P: seq<int>, L: seq<int>, R: seq<int>, ghost t: Tree, x: int)
    returns (p: seq<int>, l: seq<int>, r: seq<int>, ghost t': Tree)
    requires Shaped(P, L, R, t) && x in Order(t) && 0 <= x < |L| && L[x] != Nil
    ensures |p| == |P| && Shaped(p, l, r, t') && Order(t') == Order(t)
    ensures 0 <= L[x] < |p| && 0 <= x < |p|
    ensures p[L[x]] == P[x] && r[L[x]] == x && p[x] == L[x]
    ensures p[Header] == (if P[Header] == x then L[x] else P[Header])
  {
    ghost var z, s := Site(P, L, R, t, x);
    ghost var a, y, b, c := s.left.left, s.left.id, s.left.right, s.right;
    assert y in Nodes(s.left) && (b.Node? ==> b.id in Nodes(b));
    p, l, r := RightLinks(P, L, R, x, P[x]);
    ghost var s' := Node(a, y, Node(b, x, c));
    RightRotated(P, L, R, p, l, r, s, Top(z));
    forall n | n in CtxNodes(z) && n != Top(z) ensures Same(P, L, R, p, l, r, n) {
      assert n !in Nodes(s);
    }
    Rotated(P, L, R, z, s, s', p, l, r);
    t' := Plug(z, s');
    RightOrder(z, s);
    if z != [] {
      PlugRoot(z, s, s');
    }
    Reshaped(P, L, R, t, t', p, l, r);
  }

  /** The link updates of rb_tree_rotate_right at x, with parent q, left child y and y's
      right child b. */
  method RightLinks(P: seq<int>, L: seq<int>, R: seq<int>, x: int, q: int)
    returns (p: seq<int>, l: seq<int>, r: seq<int>)
    requires |P| == |L| == |R| && 1 <= x < |P| && 0 <= q < |P| && P[x] == q
    requires 1 <= L[x] < |P| && (R[L[x]] == Nil || 1 <= R[L[x]] < |P|)
    requires var y, b := L[x], R[L[x]]; x != y && q != x && q != y && b != x && b != y && b != q
    requires P[Header] == x <==> q == Header
    ensures |p| == |P| && |l| == |L| && |r| == |R|
    ensures var y, b := L[x], R[L[x]];
      && p[x] == y && l[x] == b && r[x] == R[x]
      && p[y] == q && l[y] == L[y] && r[y] == x
      && (b != Nil ==> Moved(P, L, R, p, l, r, b, x))
      && (q != Header ==> Relinked(P, L, R, p, l, r, q, L[q] == x, y))
      && p[Header] == (if q == Header then y else P[Header]) && l[Header] == L[Header] && r[Header] == R[Header]
      && forall n :: 1 <= n < |P| && n != x && n != y && n != q && n != b ==> Same(P, L, R, p, l, r, n)
  {
    var y := L[x];
    p, l, r := P, L, R;
    l := l[x := r[y]];
    if r[y] != Nil {
      p := p[r[y] := x];
    }
    p := p[y := p[x]];
    if x == p[Header] {
      p := p[Header := y];
    } else if x == l[p[x]] {
      l := l[p[x] := y];
    } else {
      r := r[p[x] := y];
    }
    r := r[y := x];
    p := p[x := y];
  }

  /** The links after a right rotation at s's root encode the rotated subtree. */
  lemma {:induction false} RightRotated(P: seq<int>, L: seq<int>, R: seq<int>, p: seq<int>, l: seq<int>, r: seq<int>, s: Tree, q: int)
    requires Encodes(P, L, R, s, q) && Distinct(s) && s.Node? && s.left.Node? && q !in Nodes(s)
    requires 1 <= s.left.id < |P| && s.left.id < |L| && s.left.id < |R| && |p| == |P| && |l| == |L| && |r| == |R|
    requires var x, y, b := s.id, s.left.id, RootId(s.left.right);
      && p[x] == y && l[x] == b && r[x] == R[x]
      && p[y] == q && l[y] == L[y] && r[y] == x
      && (b != Nil ==> Moved(P, L, R, p, l, r, b, x))
      && forall n :: 1 <= n < |P| && n != x && n != y && n != q && n != b ==> Same(P, L, R, p, l, r, n)
    ensures Encodes(p, l, r, Node(s.left.left, s.left.id, Node(s.left.right, s.id, s.right)), q)
  {
    var a, x, y, b, c := s.left.left, s.id, s.left.id, s.left.right, s.right;
    EncodesNodes(P, L, R, s, q);
    assert y in Nodes(s.left) && b.Node? ==> b.id in Nodes(b);
    forall n | n in Nodes(a) ensures Same(P, L, R, p, l, r, n) {
      assert n != y && n != x && (b.Node? ==> n != b.id);
    }
    EncodesKeep(P, L, R, p, l, r, a, y);
    forall n | n in Nodes(c) ensures Same(P, L, R, p, l, r, n) {
      assert n != y && n != x && (b.Node? ==> n != b.id);
    }
    EncodesKeep(P, L, R, p, l, r, c, x);
    if b.Node? {
      assert b.id in Nodes(b);
      EncodesMove(P, L, R, p, l, r, b, y, x);
    }
  }

  /** A subtree s replaced in place by s', encoded under s's parent, which now names s',
      with every other frame node kept: the links form the whole tree with s' in s's
      place. */
  lemma Rotated(P: seq<int>, L: seq<int>, R: seq<int>, z: seq<Frame>, s: Tree, s': Tree,
                p: seq<int>, l: seq<int>, r: seq<int>)
    requires s.Node? && s'.Node? && Ctx(P, L, R, z, s.id) && CtxDistinct(z)
    requires Encodes(p, l, r, s', Top(z))
    requires z != [] ==> Relinked(P, L, R, p, l, r, z[0].pid, z[0].toLeft, s'.id)
    requires forall n :: n in CtxNodes(z) && n != Top(z) ==> Same(P, L, R, p, l, r, n)
    ensures Encodes(p, l, r, Plug(z, s'), Header)
  {
    CtxRelinked(P, L, R, p, l, r, z, s.id, s'.id);
    Plugged(p, l, r, z, s');
  }

  /** Links that encode the frames around s' and s' under the innermost frame encode the
      whole tree. */
  lemma Plugged(p: seq<int>, l: seq<int>, r: seq<int>, z: seq<Frame>, s': Tree)
    requires s'.Node? && Ctx(p, l, r, z, s'.id) && Encodes(p, l, r, s', Top(z))
    ensures Encodes(p, l, r, Plug(z, s'), Header)
  {
    PlugEncodes(p, l, r, z, s');
  }

  /** Links that encode a tree with t's order, root it at the header and keep the header's
      ends shape it. */
  lemma Reshaped(P: seq<int>, L: seq<int>, R: seq<int>, t: Tree, t': Tree, p: seq<int>, l: seq<int>, r: seq<int>)
    requires Shaped(P, L, R, t) && Order(t') == Order(t) && (t'.Leaf? <==> t.Leaf?)
    requires |p| == |P| && |l| == |L| && |r| == |R| && Encodes(p, l, r, t', Header)
    requires p[Header] == RootId(t') && l[Header] == L[Header] && r[Header] == R[Header]
    ensures Shaped(p, l, r, t')
  {
  }

  /** A left rotation keeps the order of the whole tree. */
  lemma LeftOrder(z: seq<Frame>, s: Tree)
    requires s.Node? && s.right.Node?
    ensures Order(Plug(z, Node(Node(s.left, s.id, s.right.left), s.right.id, s.right.right))) == Order(Plug(z, s))
  {
    PlugSameOrder(z, s, Node(Node(s.left, s.id, s.right.left), s.right.id, s.right.right));
  }

  /** A right rotation keeps the order of the whole tree. */
  lemma RightOrder(z: seq<Frame>, s: Tree)
    requires s.Node? && s.left.Node?
    ensures Order(Plug(z, Node(s.left.left, s.left.id, Node(s.left.right, s.id, s.right)))) == Order(Plug(z, s))
  {
    PlugSameOrder(z, s, Node(s.left.left, s.left.id, Node(s.left.right, s.id, s.right)));
  }

  /** Subtrees with the same order give whole trees with the same order. */
  lemma PlugSameOrder(z: seq<Frame>, s: Tree, s': Tree)
    requires Order(s') == Order(s)
    ensures Order(Plug(z, s')) == Order(Plug(z, s))
  {
    PlugOrder(z, s);
    PlugOrder(z, s');
  }

  /** Links that point the innermost frame's hole (or nothing, with no frames) at h' and
      keep every other frame node encode the frames around h'. */
  lemma CtxRelinked(P: seq<int>, L: seq<int>, R: seq<int>, p: seq<int>, l: seq<int>, r: seq<int>,
                    z: seq<Frame>, h: int, h': int)
    requires Ctx(P, L, R, z, h) && CtxDistinct(z)
    requires z != [] ==> Relinked(P, L, R, p, l, r, z[0].pid, z[0].toLeft, h')
    requires forall n :: n in CtxNodes(z) && n != Top(z) ==> Same(P, L, R, p, l, r, n)
    ensures Ctx(p, l, r, z, h')
  {
    if z != [] {
      assert Top(z) == z[0].pid;
      CtxRelink(P, L, R, p, l, r, z, h, h');
    }
  }

  // ---------------------------------------------------------------------------
  // decre's test as written

  /** decre's first test as written, `node->color = rb_tree_red && node->parent->parent ==
      node`: an assignment to the node's colour of `rb_tree_red && ...`, which is red
      whatever the links; the test's value is the colour assigned. */
  function DecreTestAsWritten(P: seq<int>, C: seq<bool>, it: int): (bool, seq<bool>)
    requires 0 <= it < |P| && it < |C|
  {
    var v := Red && HeaderTestAsWritten(P, it);
    (v, C[it := v])
  }

  /** As written, the test never holds, and it paints the node red. */
  lemma DecreTestAsWrittenNeverHolds(P: seq<int>, C: seq<bool>, it: int)
    requires 0 <= it < |P| && it < |C|
    ensures !DecreTestAsWritten(P, C, it).0 && DecreTestAsWritten(P, C, it).1 == C[it := Red]
  {
  }

  /** The root 1 with the left child 2: decre from end() as written misses the header, goes
      to the header's left link 2 (the first node) and then to the maximum below it, 2,
      where the last node 1 is due; decre from the root as written paints the black root
      red. */
  method DecreAsWrittenAtEnd() returns (asWritten: int, due: int)
    ensures asWritten == 2 && due == 1
  {
    var P, L, R, C := [1, 0, 1], [2, 2, Nil], [1, Nil, Nil], [Red, Black, Red];
    ghost var t := Node(Node(Leaf, 2, Leaf), 1, Leaf);
    RootWithLeft();
    assert Colored(P, L, R, C, t);
    var test, C' := DecreTestAsWritten(P, C, Header).0, DecreTestAsWritten(P, C, Header).1;
    assert !test && L[Header] == 2;
    asWritten := Maximum(P, L, R, L[Header], t.left, 1);
    assert DecreTestAsWritten(P, C, 1).1[1] == Red;
    due := Decre(P, L, R, C, t, Header);
    LastPos(t, 1);
  }
}
