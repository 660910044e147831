// Container/Sequence/forward_list.hpp: the singly linked chain helpers. A chain is a run of
// nodes, each `next` pointing at the following one and the last at null; a ghost sequence
// of the nodes in order names the chain in contracts.
module ForwardList {

  /** forward_list_node: the link and the stored value (the list's own head node carries
      a value that is never read). No operation modelled here writes the value after
      construction, so it is a constant. */
  class Node<T> {
    var next: Node?<T>
    const data: T

    constructor (v: T)
      ensures next == null && data == v
    {
      next := null;
      data := v;
    }
  }

  /** xs is a null-terminated chain: distinct nodes, each linked to the next, the last to null. */
  ghost predicate Chain<T>(xs: seq<Node<T>>)
    reads xs
  {
    (forall i, j :: 0 <= i < j < |xs| ==> xs[i] != xs[j]) &&
    (forall i :: 0 <= i < |xs| - 1 ==> xs[i].next == xs[i + 1]) &&
    (|xs| > 0 ==> xs[|xs| - 1].next == null)
  }

  /** The chain that starts at h is xs (empty exactly when h is null). */
  ghost predicate ChainFrom<T>(h: Node?<T>, xs: seq<Node<T>>)
    reads xs
  {
    if h == null then xs == [] else |xs| > 0 && xs[0] == h && Chain(xs)
  }

  /** No node lies on both chains. */
  ghost predicate Apart<T>(xs: seq<Node<T>>, ys: seq<Node<T>>)
  {
    forall i, j :: 0 <= i < |xs| && 0 <= j < |ys| ==> xs[i] != ys[j]
  }

  /** P with the run R placed right after position p. */
  function Spliced<T>(P: seq<T>, p: int, R: seq<T>): (r: seq<T>)
    requires 0 <= p < |P|
    ensures |r| == |P| + |R|
  {
    P[..p + 1] + R + P[p + 1..]
  }

  /** Where the k-th node of a spliced chain comes from. */
  lemma SplicedAt<T>(P: seq<T>, p: int, R: seq<T>, k: int)
    requires 0 <= p < |P| && 0 <= k < |P| + |R|
    ensures k <= p ==> Spliced(P, p, R)[k] == P[k]
    ensures p < k <= p + |R| ==> Spliced(P, p, R)[k] == R[k - p - 1]
    ensures p + |R| < k ==> Spliced(P, p, R)[k] == P[k - |R|]
  {
  }

  /** Splicing in an empty run changes nothing. */
  lemma SplicedNothing<T>(P: seq<T>, p: int)
    requires 0 <= p < |P|
    ensures Spliced(P, p, []) == P
  {
    assert P[..p + 1] + P[p + 1..] == P;
  }

  /** Q without the run after position lo up to and including position hi. */
  function Cut<T>(Q: seq<T>, lo: int, hi: int): (r: seq<T>)
    requires 0 <= lo < hi < |Q|
    ensures |r| == |Q| - (hi - lo)
  {
    Q[..lo + 1] + Q[hi + 1..]
  }

  /** Where the k-th node of a cut chain comes from. */
  lemma CutAt<T>(Q: seq<T>, lo: int, hi: int, k: int)
    requires 0 <= lo < hi < |Q| && 0 <= k < |Q| - (hi - lo)
    ensures k <= lo ==> Cut(Q, lo, hi)[k] == Q[k]
    ensures lo < k ==> Cut(Q, lo, hi)[k] == Q[k + (hi - lo)]
  {
  }

  /** The position in P that position k of a chain with its run after position lo up to
      and including position hi moved to just after position p takes its node from. */
  function MovedFrom(p: int, lo: int, hi: int, k: int): int
  {
    if p <= lo then
      (if k <= p then k else if k <= p + (hi - lo) then k + (lo - p)
       else if k <= hi then k - (hi - lo) else k)
    else
      (if k <= lo then k else if k <= lo + (p - hi) then k + (hi - lo)
       else if k <= p then k - (p - hi) else k)
  }

  /** One chain with its run after position lo up to and including position hi moved to
      just after position p, which lies outside that run. */
  function MovedAfter<T>(P: seq<T>, p: int, lo: int, hi: int): (r: seq<T>)
    requires 0 <= lo < hi < |P| && 0 <= p < |P| && (p <= lo || hi < p)
    ensures |r| == |P|
  {
    seq(|P|, k requires 0 <= k < |P| => P[MovedFrom(p, lo, hi, k)])
  }

  /** The moved chain in slices: the nodes up to p, the run, the nodes between p and the run,
      and the rest (or the nodes up to the run, those after it up to p, the run, the rest). */
  lemma {:induction false} MovedAfterSlices<T>(P: seq<T>, p: int, lo: int, hi: int)
    requires 0 <= lo < hi < |P| && 0 <= p < |P| && (p <= lo || hi < p)
    ensures p <= lo ==> MovedAfter(P, p, lo, hi) == P[..p + 1] + P[lo + 1..hi + 1] + P[p + 1..lo + 1] + P[hi + 1..]
    ensures hi < p ==> MovedAfter(P, p, lo, hi) == P[..lo + 1] + P[hi + 1..p + 1] + P[lo + 1..hi + 1] + P[p + 1..]
  {
    var x := MovedAfter(P, p, lo, hi);
    if p <= lo {
      var a, b, c, d := P[..p + 1], P[lo + 1..hi + 1], P[p + 1..lo + 1], P[hi + 1..];
      forall k | 0 <= k < |x|
        ensures x[k] == (a + b + c + d)[k]
      {
        Cat4At(a, b, c, d, k);
      }
      assert x == a + b + c + d;
    } else {
      var a, b, c, d := P[..lo + 1], P[hi + 1..p + 1], P[lo + 1..hi + 1], P[p + 1..];
      forall k | 0 <= k < |x|
        ensures x[k] == (a + b + c + d)[k]
      {
        Cat4At(a, b, c, d, k);
      }
      assert x == a + b + c + d;
    }
  }

  /** Which part of a four-part sequence position k falls in. */
  lemma Cat4At<T>(a: seq<T>, b: seq<T>, c: seq<T>, d: seq<T>, k: int)
    requires 0 <= k < |a| + |b| + |c| + |d|
    ensures k < |a| ==> (a + b + c + d)[k] == a[k]
    ensures |a| <= k < |a| + |b| ==> (a + b + c + d)[k] == b[k - |a|]
    ensures |a| + |b| <= k < |a| + |b| + |c| ==> (a + b + c + d)[k] == c[k - |a| - |b|]
    ensures |a| + |b| + |c| <= k ==> (a + b + c + d)[k] == d[k - |a| - |b| - |c|]
  {
  }

  /** Moving a run within one chain is cutting it out and splicing it back in after p,
      whose position drops by the run's length when it lay beyond the run. */
  lemma {:induction false} MovedAfterIsCutSpliced<T>(P: seq<T>, p: int, lo: int, hi: int)
    requires 0 <= lo < hi < |P| && 0 <= p < |P| && (p <= lo || hi < p)
    ensures MovedAfter(P, p, lo, hi) ==
            Spliced(Cut(P, lo, hi), if p <= lo then p else p - (hi - lo), P[lo + 1..hi + 1])
  {
    var C, R := Cut(P, lo, hi), P[lo + 1..hi + 1];
    MovedAfterSlices(P, p, lo, hi);
    if p <= lo {
      assert P[..lo + 1] == P[..p + 1] + P[p + 1..lo + 1];
      SpliceInto(C, P[..p + 1], [], P[p + 1..lo + 1] + P[hi + 1..], R);
    } else {
      assert P[hi + 1..] == P[hi + 1..p + 1] + P[p + 1..];
      SpliceInto(C, P[..lo + 1], P[hi + 1..p + 1], P[p + 1..], R);
    }
  }

  /** Splicing R into a + b + d right after its a + b part. */
  lemma SpliceInto<T>(x: seq<T>, a: seq<T>, b: seq<T>, d: seq<T>, R: seq<T>)
    requires x == a + b + d
    ensures x[..|a| + |b|] + R + x[|a| + |b|..] == a + b + R + d
  {
    assert x[..|a| + |b|] == a + b;
    assert x[|a| + |b|..] == d;
  }

  /** Moving a run within a chain only reorders it: every node is kept, as often as before. */
  lemma {:induction false} MovedAfterPermutes<T>(P: seq<T>, p: int, lo: int, hi: int)
    requires 0 <= lo < hi < |P| && 0 <= p < |P| && (p <= lo || hi < p)
    ensures multiset(MovedAfter(P, p, lo, hi)) == multiset(P)
  {
    var x := MovedAfter(P, p, lo, hi);
    MovedAfterSlices(P, p, lo, hi);
    if p <= lo {
      SwapSlices(x, P, p + 1, lo + 1, hi + 1);
    } else {
      SwapSlices(x, P, lo + 1, hi + 1, p + 1);
    }
  }

  /** Exchanging two adjacent slices of a sequence keeps its multiset. */
  lemma SwapSlices<T>(x: seq<T>, P: seq<T>, i: int, j: int, k: int)
    requires 0 <= i <= j <= k <= |P|
    requires x == P[..i] + P[j..k] + P[i..j] + P[k..]
    ensures multiset(x) == multiset(P)
  {
    Split4(P, i, j, k);
    SwapMiddle(x, P, P[..i], P[i..j], P[j..k], P[k..]);
  }

  /** A sequence is its four consecutive slices joined. */
  lemma Split4<T>(P: seq<T>, i: int, j: int, k: int)
    requires 0 <= i <= j <= k <= |P|
    ensures P == P[..i] + P[i..j] + P[j..k] + P[k..]
  {
    assert P[..i] + P[i..j] == P[..j];
    assert P[..j] + P[j..k] == P[..k];
    assert P[..k] + P[k..] == P;
  }

  /** Exchanging the two middle parts of a sequence keeps its multiset. */
  lemma SwapMiddle<T>(x: seq<T>, y: seq<T>, a: seq<T>, b: seq<T>, c: seq<T>, d: seq<T>)
    requires x == a + c + b + d && y == a + b + c + d
    ensures multiset(x) == multiset(y)
  {
  }

  /** The values stored along a chain, in order. */
  function Values<T>(xs: seq<Node<T>>): (r: seq<T>)
    ensures |r| == |xs| && forall k :: 0 <= k < |xs| ==> r[k] == xs[k].data
  {
    if xs == [] then [] else [xs[0].data] + Values(xs[1..])
  }

  /** The values of two runs laid end to end. */
  lemma {:induction false} ValuesAppend<T>(xs: seq<Node<T>>, ys: seq<Node<T>>)
    ensures Values(xs + ys) == Values(xs) + Values(ys)
  {
    if xs == [] {
      assert xs + ys == ys;
    } else {
      assert (xs + ys)[1..] == xs[1..] + ys;
      ValuesAppend(xs[1..], ys);
    }
  }

  /** The values of a spliced chain are the spliced values. */
  lemma {:induction false} ValuesSpliced<T>(P: seq<Node<T>>, p: int, R: seq<Node<T>>)
    requires 0 <= p < |P|
    ensures Values(Spliced(P, p, R)) == Spliced(Values(P), p, Values(R))
  {
    ValuesAppend(P[..p + 1] + R, P[p + 1..]);
    ValuesAppend(P[..p + 1], R);
    ValuesAppend(P[..p + 1], P[p + 1..]);
    assert P[..p + 1] + P[p + 1..] == P;
    var V := Values(P);
    assert Values(P[..p + 1]) == V[..p + 1] && Values(P[p + 1..]) == V[p + 1..];
  }

  /** The chain in the opposite order. */
  function Reversed<T>(xs: seq<T>): (r: seq<T>)
    ensures |r| == |xs| && forall k :: 0 <= k < |xs| ==> r[k] == xs[|xs| - 1 - k]
  {
    if xs == [] then [] else Reversed(xs[1..]) + [xs[0]]
  }

  /** Reversing twice gives the chain back. */
  lemma ReversedTwice<T>(xs: seq<T>)
    ensures Reversed(Reversed(xs)) == xs
  {
  }

  /** Cutting a chain in two and gluing the halves in the other order: `xs == a + b`
      reverses to `Reversed(b) + Reversed(a)`. */
  lemma {:induction false} ReversedAppend<T>(a: seq<T>, b: seq<T>)
    ensures Reversed(a + b) == Reversed(b) + Reversed(a)
  {
    if a == [] {
      assert a + b == b;
    } else {
      assert (a + b)[1..] == a[1..] + b;
      ReversedAppend(a[1..], b);
    }
  }

  /** The values along a reversed chain are the values reversed. */
  lemma {:induction false} ValuesReversed<T>(xs: seq<Node<T>>)
    ensures Values(Reversed(xs)) == Reversed(Values(xs))
  {
    if xs != [] {
      ValuesReversed(xs[1..]);
      ValuesAppend(Reversed(xs[1..]), [xs[0]]);
    }
  }

  /** The position of the first node of xs whose next is node, or |xs| when there is none. */
  ghost function PrevIndex<T>(xs: seq<Node<T>>, node: Node?<T>): (r: int)
    reads xs
    ensures 0 <= r <= |xs|
    ensures r < |xs| ==> xs[r].next == node
    ensures forall j :: 0 <= j < r ==> xs[j].next != node
  {
    if xs == [] then 0
    else if xs[0].next == node then 0
    else 1 + PrevIndex(xs[1..], node)
  }

  /** previous(head, null) is the last node of a non-empty chain, since every earlier node
      links to another node. */
  lemma PrevOfNullIsLast<T>(xs: seq<Node<T>>)
    requires Chain(xs) && |xs| > 0
    ensures PrevIndex(xs, null) == |xs| - 1
  {
    forall j | 0 <= j < |xs| - 1
      ensures xs[j].next != null
    {
      assert xs[j].next == xs[j + 1];
    }
  }

  /** make_link(prev, n): n is linked in directly after prev, and n is returned. */
  method MakeLink<T>(prev: Node<T>, n: Node<T>, ghost xs: seq<Node<T>>, ghost i: int) returns (r: Node<T>)
    requires Chain(xs) && 0 <= i < |xs| && xs[i] == prev && n !in xs
    modifies prev`next, n`next
    ensures r == n && prev.next == n && n.next == old(prev.next)
    ensures Chain(Spliced(xs, i, [n]))
  {
    n.next := prev.next;
    prev.next := n;
    r := n;
    ghost var ys := Spliced(xs, i, [n]);
    forall j, k | 0 <= j < k < |ys|
      ensures ys[j] != ys[k]
    {
      SplicedAt(xs, i, [n], j);
      SplicedAt(xs, i, [n], k);
    }
    forall k | 0 <= k < |ys| - 1
      ensures ys[k].next == ys[k + 1]
    {
      SplicedAt(xs, i, [n], k);
      SplicedAt(xs, i, [n], k + 1);
    }
    SplicedAt(xs, i, [n], |ys| - 1);
  }

  /** previous(head, node): walks from head while the current node's next is not node;
      returns the first node whose next is node, or null when the chain has none. */
  method Previous<T>(head: Node?<T>, node: Node?<T>, ghost xs: seq<Node<T>>) returns (r: Node?<T>)
    requires ChainFrom(head, xs)
    ensures PrevIndex(xs, node) < |xs| ==> r == xs[PrevIndex(xs, node)]
    ensures PrevIndex(xs, node) == |xs| ==> r == null
  {
    r := head;
    ghost var k := 0;
    while r != null && r.next != node
      invariant 0 <= k <= |xs| && k <= PrevIndex(xs, node)
      invariant if k < |xs| then r == xs[k] else r == null
      decreases |xs| - k
    {
      r := r.next;
      k := k + 1;
    }
  }

  /** splice_after(pos, before_first, before_last): the run after before_first up to and
      including before_last moves to just after pos; nothing happens when pos is either
      bound. The run comes from another chain, which closes over the gap, or from pos's own
      chain, with pos outside the run. */
  method SpliceAfter<T>(pos: Node<T>, beforeFirst: Node<T>, beforeLast: Node<T>,
                        ghost P: seq<Node<T>>, ghost p: int, ghost Q: seq<Node<T>>, ghost lo: int, ghost hi: int)
    requires pos == beforeFirst || pos == beforeLast ||
             (Chain(P) && 0 <= p < |P| && P[p] == pos &&
              Chain(Q) && 0 <= lo < hi < |Q| && Q[lo] == beforeFirst && Q[hi] == beforeLast &&
              (Apart(P, Q) || (Q == P && (p <= lo || hi < p))))
    modifies pos`next, beforeFirst`next, beforeLast`next
    ensures pos == beforeFirst || pos == beforeLast ==> pos.next == old(pos.next) && beforeFirst.next == old(beforeFirst.next) && beforeLast.next == old(beforeLast.next)
    ensures pos != beforeFirst && pos != beforeLast && Apart(P, Q) ==>
      Chain(Spliced(P, p, Q[lo + 1..hi + 1])) && Chain(Cut(Q, lo, hi))
    ensures pos != beforeFirst && pos != beforeLast && Q == P ==>
      Chain(MovedAfter(P, p, lo, hi))
  {
    if pos != beforeFirst && pos != beforeLast {
      var first := beforeFirst.next;
      var after := pos.next;
      beforeFirst.next := beforeLast.next;
      pos.next := first;
      beforeLast.next := after;
      if Apart(P, Q) {
        SpliceTarget(P, p, Q, lo, hi);
        SpliceSource(P, p, Q, lo, hi);
      } else {
        SpliceWithin(P, p, lo, hi);
      }
    }
  }

  /** splice_after(pos, head): head's whole chain after head itself moves to just after pos
      and head is left alone (next null); an empty chain leaves everything as it was.
      before_last is found with previous(head, null). */
  method SpliceAfterAll<T>(pos: Node<T>, head: Node<T>, ghost P: seq<Node<T>>, ghost p: int, ghost H: seq<Node<T>>)
    requires Chain(P) && 0 <= p < |P| && P[p] == pos
    requires ChainFrom(head, H) && Apart(P, H)
    modifies pos`next, H`next
    ensures Chain(Spliced(P, p, H[1..])) && head.next == null
  {
    PrevOfNullIsLast(H);
    var beforeLast := Previous(head, null, H);
    if beforeLast != head {
      // pos->next = head->next; head->next = 0; before_last->next = after: the same three
      // links splice_after(pos, head, before_last) rewrites, since before_last->next is null.
      SpliceAfter(pos, head, beforeLast, P, p, H, 0, |H| - 1);
      assert H[1..|H|] == H[1..];
      CutAt(H, 0, |H| - 1, 0);
    } else {
      assert |H| == 1 && H[1..] == [];
      SplicedNothing(P, p);
    }
  }

  /** After the three links of splice_after are rewritten, the run sits after pos. */
  lemma {:induction false} SpliceTarget<T>(P: seq<Node<T>>, p: int, Q: seq<Node<T>>, lo: int, hi: int)
    requires Apart(P, Q) && 0 <= p < |P| && 0 <= lo < hi < |Q|
    requires forall i, j :: 0 <= i < j < |P| ==> P[i] != P[j]
    requires forall i, j :: 0 <= i < j < |Q| ==> Q[i] != Q[j]
    requires forall i :: 0 <= i < |P| - 1 && i != p ==> P[i].next == P[i + 1]
    requires forall i :: 0 <= i < |Q| - 1 && i != lo && i != hi ==> Q[i].next == Q[i + 1]
    requires P[|P| - 1] != P[p] ==> P[|P| - 1].next == null
    requires Q[|Q| - 1] != Q[hi] ==> Q[|Q| - 1].next == null
    requires P[p].next == Q[lo + 1]
    requires Q[hi].next == (if p < |P| - 1 then P[p + 1] else null)
    requires Q[lo].next == (if hi < |Q| - 1 then Q[hi + 1] else null)
    ensures Chain(Spliced(P, p, Q[lo + 1..hi + 1]))
  {
    var R := Q[lo + 1..hi + 1];
    var ys := Spliced(P, p, R);
    forall i, j | 0 <= i < j < |ys|
      ensures ys[i] != ys[j]
    {
      SplicedAt(P, p, R, i);
      SplicedAt(P, p, R, j);
    }
    forall i | 0 <= i < |ys| - 1
      ensures ys[i].next == ys[i + 1]
    {
      SplicedAt(P, p, R, i);
      SplicedAt(P, p, R, i + 1);
    }
    SplicedAt(P, p, R, |ys| - 1);
  }

  /** ... and the chain it came from closes over the gap. */
  lemma SpliceSource<T>(P: seq<Node<T>>, p: int, Q: seq<Node<T>>, lo: int, hi: int)
    requires Apart(P, Q) && 0 <= p < |P| && 0 <= lo < hi < |Q|
    requires forall i, j :: 0 <= i < j < |P| ==> P[i] != P[j]
    requires forall i, j :: 0 <= i < j < |Q| ==> Q[i] != Q[j]
    requires forall i :: 0 <= i < |P| - 1 && i != p ==> P[i].next == P[i + 1]
    requires forall i :: 0 <= i < |Q| - 1 && i != lo && i != hi ==> Q[i].next == Q[i + 1]
    requires P[|P| - 1] != P[p] ==> P[|P| - 1].next == null
    requires Q[|Q| - 1] != Q[hi] ==> Q[|Q| - 1].next == null
    requires P[p].next == Q[lo + 1]
    requires Q[hi].next == (if p < |P| - 1 then P[p + 1] else null)
    requires Q[lo].next == (if hi < |Q| - 1 then Q[hi + 1] else null)
    ensures Chain(Cut(Q, lo, hi))
  {
    var zs := Cut(Q, lo, hi);
    forall i, j | 0 <= i < j < |zs|
      ensures zs[i] != zs[j]
    {
      CutAt(Q, lo, hi, i);
      CutAt(Q, lo, hi, j);
    }
    forall i | 0 <= i < |zs| - 1
      ensures zs[i].next == zs[i + 1]
    {
      CutAt(Q, lo, hi, i);
      CutAt(Q, lo, hi, i + 1);
    }
    CutAt(Q, lo, hi, |zs| - 1);
  }

  /** Distinct positions of a moved chain come from distinct positions of the chain. */
  lemma MovedFromInjective(p: int, lo: int, hi: int, i: int, j: int)
    requires 0 <= lo < hi && 0 <= p && (p <= lo || hi < p) && 0 <= i < j
    ensures MovedFrom(p, lo, hi, i) != MovedFrom(p, lo, hi, j)
  {
  }

  /** The position after k in a moved chain comes from the position after k's source,
      except at the three places splice_after relinks. */
  lemma MovedFromNext(p: int, lo: int, hi: int, n: int, k: int)
    requires 0 <= lo < hi < n && 0 <= p < n && (p < lo || hi < p) && 0 <= k < n - 1
    ensures var s := MovedFrom(p, lo, hi, k);
      (s != p && s != lo && s != hi ==> MovedFrom(p, lo, hi, k + 1) == s + 1) &&
      (s == p ==> MovedFrom(p, lo, hi, k + 1) == lo + 1) &&
      (s == lo ==> hi < n - 1 && MovedFrom(p, lo, hi, k + 1) == hi + 1) &&
      (s == hi ==> p < n - 1 && MovedFrom(p, lo, hi, k + 1) == p + 1)
  {
  }

  /** The last position of a moved chain comes from the last node, or from the node
      splice_after linked to null. */
  lemma MovedFromLast(p: int, lo: int, hi: int, n: int)
    requires 0 <= lo < hi < n && 0 <= p < n && (p < lo || hi < p)
    ensures var s := MovedFrom(p, lo, hi, n - 1);
      s != p && (s == n - 1 || (s == lo && hi == n - 1) || (s == hi && p == n - 1))
  {
  }

  /** ys lists, position by position, the nodes of P that a moved chain takes them from. */
  ghost predicate TakenFrom<T>(ys: seq<T>, P: seq<T>, p: int, lo: int, hi: int)
  {
    |ys| == |P| &&
    forall k :: 0 <= k < |P| ==> 0 <= MovedFrom(p, lo, hi, k) < |P| && ys[k] == P[MovedFrom(p, lo, hi, k)]
  }

  /** A chain of distinct nodes stays distinct when a run of it moves. */
  lemma MovedDistinct<T>(ys: seq<T>, P: seq<T>, p: int, lo: int, hi: int)
    requires 0 <= lo < hi && 0 <= p && (p <= lo || hi < p) && TakenFrom(ys, P, p, lo, hi)
    requires forall i, j :: 0 <= i < j < |P| ==> P[i] != P[j]
    ensures forall i, j :: 0 <= i < j < |ys| ==> ys[i] != ys[j]
  {
    forall i, j | 0 <= i < j < |ys|
      ensures ys[i] != ys[j]
    {
      MovedFromInjective(p, lo, hi, i, j);
    }
  }

  /** After the three links of splice_after are rewritten within one chain, the chain runs
      through the run at its new place. */
  lemma {:induction false} SpliceWithin<T>(P: seq<Node<T>>, p: int, lo: int, hi: int)
    requires 0 <= lo < hi < |P| && 0 <= p < |P| && (p < lo || hi < p)
    requires forall i, j :: 0 <= i < j < |P| ==> P[i] != P[j]
    requires forall i :: 0 <= i < |P| - 1 && i != p && i != lo && i != hi ==> P[i].next == P[i + 1]
    requires |P| - 1 != p && |P| - 1 != hi ==> P[|P| - 1].next == null
    requires P[p].next == P[lo + 1]
    requires P[lo].next == (if hi < |P| - 1 then P[hi + 1] else null)
    requires P[hi].next == (if p < |P| - 1 then P[p + 1] else null)
    ensures Chain(MovedAfter(P, p, lo, hi))
  {
    var ys := MovedAfter(P, p, lo, hi);
    assert TakenFrom(ys, P, p, lo, hi);
    MovedDistinct(ys, P, p, lo, hi);
    MovedLinks(ys, P, p, lo, hi);
    MovedFromLast(p, lo, hi, |P|);
  }

  /** ... each node of the moved chain links to the next one. */
  lemma {:induction false} MovedLinks<T>(ys: seq<Node<T>>, P: seq<Node<T>>, p: int, lo: int, hi: int)
    requires 0 <= lo < hi < |P| && 0 <= p < |P| && (p < lo || hi < p) && TakenFrom(ys, P, p, lo, hi)
    requires forall i :: 0 <= i < |P| - 1 && i != p && i != lo && i != hi ==> P[i].next == P[i + 1]
    requires P[p].next == P[lo + 1]
    requires P[lo].next == (if hi < |P| - 1 then P[hi + 1] else null)
    requires P[hi].next == (if p < |P| - 1 then P[p + 1] else null)
    ensures forall k :: 0 <= k < |ys| - 1 ==> ys[k].next == ys[k + 1]
  {
    MovedFromLinks(P, p, lo, hi);
    forall k | 0 <= k < |ys| - 1
      ensures ys[k].next == ys[k + 1]
    {
      assert SourceLinked(P, p, lo, hi, k);
    }
  }

  /** ... stated on positions of the chain: the source of each position links to the
      source of the next. */
  lemma {:induction false} MovedFromLinks<T>(P: seq<Node<T>>, p: int, lo: int, hi: int)
    requires 0 <= lo < hi < |P| && 0 <= p < |P| && (p < lo || hi < p)
    requires forall i :: 0 <= i < |P| - 1 && i != p && i != lo && i != hi ==> P[i].next == P[i + 1]
    requires P[p].next == P[lo + 1]
    requires P[lo].next == (if hi < |P| - 1 then P[hi + 1] else null)
    requires P[hi].next == (if p < |P| - 1 then P[p + 1] else null)
    ensures forall k :: 0 <= k < |P| - 1 ==> SourceLinked(P, p, lo, hi, k)
  {
    forall k | 0 <= k < |P| - 1
      ensures SourceLinked(P, p, lo, hi, k)
    {
      MovedFromNext(p, lo, hi, |P|, k);
    }
  }

  /** The sources of positions k and k + 1 of a moved chain are nodes of P, linked in order. */
  ghost predicate SourceLinked<T>(P: seq<Node<T>>, p: int, lo: int, hi: int, k: int)
    reads P
  {
    0 <= MovedFrom(p, lo, hi, k) < |P| && 0 <= MovedFrom(p, lo, hi, k + 1) < |P| &&
    P[MovedFrom(p, lo, hi, k)].next == P[MovedFrom(p, lo, hi, k + 1)]
  }

  /** reverse(node): every link of the chain from node is turned around, so the old first
      node ends with next null and the old last node, returned, heads the reversed chain. */
  method Reverse<T>(node: Node<T>, ghost xs: seq<Node<T>>) returns (r: Node<T>)
    requires ChainFrom(node, xs)
    modifies xs`next
    ensures r == xs[|xs| - 1] && ChainFrom(r, Reversed(xs))
  {
    r := node;
    var cur := node.next;
    r.next := null;
    ghost var k := 1;
    while cur != null
      invariant 1 <= k <= |xs| && r == xs[k - 1]
      invariant if k < |xs| then cur == xs[k] else cur == null
      invariant forall i, j :: 0 <= i < j < |xs| ==> xs[i] != xs[j]
      invariant xs[0].next == null
      invariant forall j :: 0 < j < k ==> xs[j].next == xs[j - 1]
      invariant forall j :: k <= j < |xs| - 1 ==> xs[j].next == xs[j + 1]
      invariant k < |xs| ==> xs[|xs| - 1].next == null
      decreases |xs| - k
    {
      var next := cur.next;
      cur.next := r;
      r := cur;
      cur := next;
      k := k + 1;
    }
    ghost var ys := Reversed(xs);
    forall i | 0 <= i < |ys| - 1
      ensures ys[i].next == ys[i + 1]
    {
      assert ys[i] == xs[|xs| - 1 - i] && ys[i + 1] == xs[|xs| - 1 - i - 1];
    }
  }

  /** size(node): the number of nodes from node up to null. */
  method Size<T>(node: Node?<T>, ghost xs: seq<Node<T>>) returns (r: nat)
    requires ChainFrom(node, xs)
    ensures r == |xs|
  {
    r := 0;
    var cur := node;
    while cur != null
      invariant r <= |xs| && if r < |xs| then cur == xs[r] else cur == null
      decreases |xs| - r
    {
      cur := cur.next;
      r := r + 1;
    }
  }

  /** One step of the insert loops: `pos = make_link(pos, create_node(v))` where pos is the
      last node of the run inserted so far. */
  method LinkNew<T>(cur: Node<T>, v: T, ghost P: seq<Node<T>>, ghost p: int, ghost added: seq<Node<T>>) returns (node: Node<T>)
    requires 0 <= p < |P| && Chain(Spliced(P, p, added)) && cur == Spliced(P, p, added)[p + |added|]
    modifies cur`next
    ensures fresh(node) && node.data == v
    ensures Chain(Spliced(P, p, added + [node]))
  {
    node := new Node(v);
    ghost var C := Spliced(P, p, added);
    node := MakeLink(cur, node, C, p + |added|);
    InsertedChain(P, p, added, node);
  }

  /** Linking one more node after the last inserted one extends the inserted run. */
  lemma InsertedChain<T>(P: seq<Node<T>>, p: int, added: seq<Node<T>>, node: Node<T>)
    requires 0 <= p < |P|
    ensures Spliced(Spliced(P, p, added), p + |added|, [node]) == Spliced(P, p, added + [node])
  {
  }

  /** insert_after_fill(pos, n, val): n new nodes holding val, linked in one after another
      just after pos, so they appear in order between pos and its old successor. */
  method InsertAfterFill<T>(pos: Node<T>, n: nat, val: T, ghost P: seq<Node<T>>, ghost p: int) returns (ghost added: seq<Node<T>>)
    requires Chain(P) && 0 <= p < |P| && P[p] == pos
    modifies pos`next
    ensures |added| == n && forall k :: 0 <= k < n ==> fresh(added[k])
    ensures Chain(Spliced(P, p, added)) && Values(Spliced(P, p, added)) == Spliced(Values(P), p, seq(n, _ => val))
  {
    var cur := pos;
    var i := 0;
    added := [];
    while i < n
      invariant 0 <= i <= n && |added| == i
      invariant Chain(Spliced(P, p, added))
      invariant cur == Spliced(P, p, added)[p + i] && (cur == pos || fresh(cur))
      invariant forall k :: 0 <= k < i ==> fresh(added[k])
      invariant forall k :: 0 <= k < i ==> added[k].data == val
    {
      cur := LinkNew(cur, val, P, p, added);
      added := added + [cur];
      i := i + 1;
    }
    assert Values(added) == seq(n, _ => val);
    ValuesSpliced(P, p, added);
  }

  /** insert_after_range(pos, first, last) for input iterators: one new node per value,
      in order, just after pos. */
  method InsertAfterRange<T>(pos: Node<T>, vals: seq<T>, ghost P: seq<Node<T>>, ghost p: int) returns (ghost added: seq<Node<T>>)
    requires Chain(P) && 0 <= p < |P| && P[p] == pos
    modifies pos`next
    ensures |added| == |vals| && forall k :: 0 <= k < |vals| ==> fresh(added[k])
    ensures Chain(Spliced(P, p, added)) && Values(Spliced(P, p, added)) == Spliced(Values(P), p, vals)
  {
    var cur := pos;
    var i := 0;
    added := [];
    while i < |vals|
      invariant 0 <= i <= |vals| && |added| == i
      invariant Chain(Spliced(P, p, added))
      invariant cur == Spliced(P, p, added)[p + i] && (cur == pos || fresh(cur))
      invariant forall k :: 0 <= k < i ==> fresh(added[k])
      invariant Values(added) == vals[..i]
    {
      cur := LinkNew(cur, vals[i], P, p, added);
      assert vals[..i + 1] == vals[..i] + [vals[i]];
      ValuesAppend(added, [cur]);
      added := added + [cur];
      i := i + 1;
    }
    assert vals[..i] == vals;
    ValuesSpliced(P, p, added);
  }
}
