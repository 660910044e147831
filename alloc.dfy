// Allocator/alloc.hpp: default_alloc, the two-level allocator. Requests of at most
// MAX_BYTES are served from 16 LIFO free lists of 8-byte size classes, which are refilled
// from a contiguous pool [start_free, end_free). Addresses are modelled as integers and
// blocks as spans of bytes; requests above MAX_BYTES go to malloc_alloc, which is not modelled.
module Alloc {

  const ALIGN: nat := 8
  const MAX_BYTES: nat := 128
  const NFREELISTS: nat := 16

  /** roundUp: (bytes + ALIGN - 1) & ~(ALIGN - 1), i.e. clearing the low three bits. */
  function RoundUp(bytes: nat): nat
  {
    (bytes + ALIGN - 1) - (bytes + ALIGN - 1) % ALIGN
  }

  /** roundUp gives the least multiple of 8 that is at least bytes. */
  lemma RoundUpLeast(bytes: nat)
    ensures RoundUp(bytes) % ALIGN == 0
    ensures bytes <= RoundUp(bytes) < bytes + ALIGN
    ensures forall m: nat :: m % ALIGN == 0 && bytes <= m ==> RoundUp(bytes) <= m
  {
    var b := bytes + ALIGN - 1;
    var k := b / ALIGN;
    assert b == ALIGN * k + b % ALIGN;
    assert RoundUp(bytes) == ALIGN * k;
    forall m: nat | m % ALIGN == 0 && bytes <= m
      ensures RoundUp(bytes) <= m
    {
      var q := m / ALIGN;
      assert m == ALIGN * q;
      assert ALIGN * k <= b <= ALIGN * q + ALIGN - 1;
    }
  }

  /** freelist_index: (bytes + ALIGN - 1) / ALIGN - 1. */
  function FreelistIndex(bytes: nat): int
  {
    (bytes + ALIGN - 1) / ALIGN - 1
  }

  /** For 1 <= bytes <= 128 the index names one of the 16 lists, and that list's class
      size 8 * (index + 1) is exactly roundUp(bytes). */
  lemma FreelistIndexClass(bytes: nat)
    requires 1 <= bytes <= MAX_BYTES
    ensures 0 <= FreelistIndex(bytes) < NFREELISTS
    ensures RoundUp(bytes) == ClassSize(FreelistIndex(bytes))
  {
  }

  /** The block size served by free list i. */
  function ClassSize(i: int): nat { if i < 0 then 0 else ALIGN * (i + 1) }

  /** A run of bytes [addr, addr + len). */
  datatype Span = Span(addr: int, len: nat)

  predicate Apart(x: Span, y: Span)
  {
    x.addr + x.len <= y.addr || y.addr + y.len <= x.addr
  }

  ghost predicate PairwiseApart(S: set<Span>)
  {
    forall x, y :: x in S && y in S && x != y ==> Apart(x, y)
  }

  /** What allocate hands back. */
  datatype Allocation =
    | Pooled(addr: int)        // a block of roundUp(sz) bytes from the free lists or the pool
    | FromMalloc(size: nat)    // the request was forwarded to malloc_alloc
    | PoolExhausted            // chunk_alloc would have to obtain more memory from the heap

  // ---- chunk_alloc, as written and as intended ----

  /** The in-pool cases of chunk_alloc as written (Allocator/alloc.hpp:164-179):
      the result is the number of objects handed out and how far start_free moves.
      Case 2 tests total_bytes >= sz, which always holds, instead of bytes_left >= sz. */
  function ChunkPlanAsWritten(bytesLeft: nat, sz: nat, nobjs: nat): (nat, nat)
    requires sz > 0
  {
    var total := sz * nobjs;
    if bytesLeft >= total then (nobjs, total)
    else if total >= sz then (total / sz, sz * (total / sz))
    else (0, 0)
  }

  /** As written, a pool holding fewer bytes than asked for hands out all of them anyway:
      start_free runs 160 bytes past end_free for an empty pool. */
  lemma ChunkPlanAsWrittenOverruns()
    ensures ChunkPlanAsWritten(0, 8, 20) == (20, 160)
  {
  }

  /** The in-pool cases of chunk_alloc as intended: as many whole objects as fit, at most
      nobjs; (0, 0) stands for case 3, which refills the pool from the heap. */
  function ChunkPlan(bytesLeft: nat, sz: nat, nobjs: nat): (r: (nat, nat))
    requires sz > 0 && nobjs > 0
    ensures r.1 == sz * r.0 && r.1 <= bytesLeft && r.0 <= nobjs
    ensures bytesLeft >= sz * nobjs ==> r.0 == nobjs
    ensures bytesLeft < sz * nobjs ==> r.0 == bytesLeft / sz
  {
    var total := sz * nobjs;
    if bytesLeft >= total then (nobjs, total)
    else if bytesLeft >= sz then (bytesLeft / sz, sz * (bytesLeft / sz))
    else (0, 0)
  }

  lemma MulMono(a: nat, b: nat, c: nat)
    requires b <= c
    ensures a * b <= a * c
  {
  }

  // ---- the chain refill threads onto a free list ----

  /** The nobjs - 1 blocks that refill chains onto the free list, spaced `step` bytes
      apart from chunk + step, each as long as the list's class size. */
  function Chain(chunk: int, step: nat, len: nat, nobjs: nat): (c: seq<Span>)
    ensures nobjs > 0 ==> |c| == nobjs - 1
  {
    if nobjs <= 1 then [] else seq(nobjs - 1, k => Span(chunk + step * (k + 1), len))
  }

  /** allocate(sz) calls refill(sz) with the unrounded size (Allocator/alloc.hpp:252),
      though refill expects an aligned size: the blocks are sz bytes apart but belong to the
      roundUp(sz) class. For sz = 1 the first two chained blocks overlap. */
  function RefillChainAsWritten(chunk: int, sz: nat, nobjs: nat): seq<Span>
  {
    Chain(chunk, sz, RoundUp(sz), nobjs)
  }

  lemma RefillChainAsWrittenOverlaps()
    ensures |RefillChainAsWritten(0, 1, 20)| == 19
    ensures !Apart(RefillChainAsWritten(0, 1, 20)[0], RefillChainAsWritten(0, 1, 20)[1])
  {
  }

  /** The chain with the evidently intended rounded size. */
  function RefillChain(chunk: int, sz: nat, nobjs: nat): seq<Span>
  {
    Chain(chunk, RoundUp(sz), RoundUp(sz), nobjs)
  }

  /** With the rounded size, the chained blocks are pairwise apart, each lies inside the
      chunk [chunk, chunk + roundUp(sz) * nobjs) and none overlaps the first block. */
  lemma {:induction false} RefillChainApart(chunk: int, sz: nat, nobjs: nat)
    requires sz > 0 && nobjs > 1
    ensures forall k1, k2 :: 0 <= k1 < k2 < |RefillChain(chunk, sz, nobjs)| ==>
      Apart(RefillChain(chunk, sz, nobjs)[k1], RefillChain(chunk, sz, nobjs)[k2])
    ensures forall k :: 0 <= k < |RefillChain(chunk, sz, nobjs)| ==>
      chunk + RoundUp(sz) <= RefillChain(chunk, sz, nobjs)[k].addr &&
      RefillChain(chunk, sz, nobjs)[k].addr + RoundUp(sz) <= chunk + RoundUp(sz) * nobjs &&
      RefillChain(chunk, sz, nobjs)[k].len == RoundUp(sz)
  {
    var rs := RoundUp(sz);
    var c := RefillChain(chunk, sz, nobjs);
    forall k1, k2 | 0 <= k1 < k2 < |c| ensures Apart(c[k1], c[k2]) {
      MulMono(rs, k1 + 2, k2 + 1);
      assert rs * (k1 + 2) == rs * (k1 + 1) + rs;
    }
    forall k | 0 <= k < |c|
      ensures chunk + rs <= c[k].addr && c[k].addr + rs <= chunk + rs * nobjs
    {
      MulMono(rs, 1, k + 1);
      MulMono(rs, k + 2, nobjs);
      assert rs * (k + 2) == rs * (k + 1) + rs;
    }
  }

  // ---- free lists as values ----

  /** The spans held by free lists fl, list i serving blocks of ClassSize(i). */
  ghost function ListSpans(fl: seq<seq<int>>): set<Span>
  {
    set i, k | 0 <= i < |fl| && 0 <= k < |fl[i]| :: Span(fl[i][k], ClassSize(i))
  }

  ghost function ChainSpans(chain: seq<int>, len: nat): set<Span>
  {
    set k | 0 <= k < |chain| :: Span(chain[k], len)
  }

  ghost predicate NoDuplicates(fl: seq<seq<int>>)
  {
    forall i, k1, k2 :: 0 <= i < |fl| && 0 <= k1 < k2 < |fl[i]| ==> fl[i][k1] != fl[i][k2]
  }

  /** The allocator's safety invariant: the free and the live blocks are pairwise apart,
      no block is both, no list holds a block twice, and all lie below `top`. */
  ghost predicate Sound(fl: seq<seq<int>>, live: set<Span>, top: int)
  {
    |fl| == NFREELISTS && NoDuplicates(fl) &&
    live !! ListSpans(fl) &&
    PairwiseApart(live + ListSpans(fl)) &&
    (forall x :: x in live + ListSpans(fl) ==> x.len > 0 && x.addr + x.len <= top)
  }

  lemma ListSpansInstall(fl: seq<seq<int>>, idx: int, chain: seq<int>)
    requires 0 <= idx < |fl| && fl[idx] == []
    ensures ListSpans(fl[idx := chain]) == ListSpans(fl) + ChainSpans(chain, ClassSize(idx))
  {
    var fl' := fl[idx := chain];
    forall x | x in ListSpans(fl') ensures x in ListSpans(fl) + ChainSpans(chain, ClassSize(idx)) {
      var i, k :| 0 <= i < |fl'| && 0 <= k < |fl'[i]| && x == Span(fl'[i][k], ClassSize(i));
      if i != idx { assert x == Span(fl[i][k], ClassSize(i)); }
    }
    forall x | x in ListSpans(fl) ensures x in ListSpans(fl') {
      var i, k :| 0 <= i < |fl| && 0 <= k < |fl[i]| && x == Span(fl[i][k], ClassSize(i));
      assert x == Span(fl'[i][k], ClassSize(i));
    }
    forall x | x in ChainSpans(chain, ClassSize(idx)) ensures x in ListSpans(fl') {
      var k :| 0 <= k < |chain| && x == Span(chain[k], ClassSize(idx));
      assert x == Span(fl'[idx][k], ClassSize(idx));
    }
  }

  lemma ListSpansPush(fl: seq<seq<int>>, idx: int, p: int)
    requires 0 <= idx < |fl|
    ensures ListSpans(fl[idx := [p] + fl[idx]]) == ListSpans(fl) + {Span(p, ClassSize(idx))}
  {
    var fl' := fl[idx := [p] + fl[idx]];
    forall x | x in ListSpans(fl') ensures x in ListSpans(fl) + {Span(p, ClassSize(idx))} {
      var i, k :| 0 <= i < |fl'| && 0 <= k < |fl'[i]| && x == Span(fl'[i][k], ClassSize(i));
      if i != idx { assert x == Span(fl[i][k], ClassSize(i)); }
      else if k > 0 { assert x == Span(fl[i][k - 1], ClassSize(i)); }
    }
    forall x | x in ListSpans(fl) ensures x in ListSpans(fl') {
      var i, k :| 0 <= i < |fl| && 0 <= k < |fl[i]| && x == Span(fl[i][k], ClassSize(i));
      if i != idx { assert x == Span(fl'[i][k], ClassSize(i)); }
      else { assert x == Span(fl'[i][k + 1], ClassSize(i)); }
    }
    assert Span(fl'[idx][0], ClassSize(idx)) in ListSpans(fl');
  }

  /** Popping the head of list idx removes exactly its span, which nothing else holds. */
  lemma ListSpansPop(fl: seq<seq<int>>, idx: int, live: set<Span>, top: int)
    requires Sound(fl, live, top) && 0 <= idx < |fl| && fl[idx] != []
    ensures ListSpans(fl[idx := fl[idx][1..]]) == ListSpans(fl) - {Span(fl[idx][0], ClassSize(idx))}
  {
    var fl' := fl[idx := fl[idx][1..]];
    var h := Span(fl[idx][0], ClassSize(idx));
    assert h in ListSpans(fl);
    forall x | x in ListSpans(fl') ensures x in ListSpans(fl) && x != h {
      var i, k :| 0 <= i < |fl'| && 0 <= k < |fl'[i]| && x == Span(fl'[i][k], ClassSize(i));
      if i != idx {
        assert x == Span(fl[i][k], ClassSize(i));
      } else {
        assert x == Span(fl[i][k + 1], ClassSize(i));
        assert fl[idx][0] != fl[idx][k + 1];
      }
    }
    forall x | x in ListSpans(fl) && x != h ensures x in ListSpans(fl') {
      var i, k :| 0 <= i < |fl| && 0 <= k < |fl[i]| && x == Span(fl[i][k], ClassSize(i));
      if i != idx { assert x == Span(fl'[i][k], ClassSize(i)); }
      else { assert k > 0; assert x == Span(fl'[i][k - 1], ClassSize(i)); }
    }
  }

  /** Two families of pairwise-apart spans, one below m and one from m on, are apart together. */
  lemma ApartUnion(A: set<Span>, B: set<Span>, m: int)
    requires PairwiseApart(A) && PairwiseApart(B)
    requires forall x :: x in A ==> x.addr + x.len <= m
    requires forall y :: y in B ==> m <= y.addr && y.len > 0
    ensures PairwiseApart(A + B) && A !! B
  {
  }

  // ---- the allocator state ----

  class DefaultAlloc {
    /** freelist[i]: the free blocks of class size 8 * (i + 1), head first. */
    var freelist: array<seq<int>>
    var startFree: int
    var endFree: int
    /** The pooled blocks currently handed out to callers. */
    ghost var live: set<Span>

    ghost predicate Valid()
      reads this, freelist
    {
      freelist.Length == NFREELISTS && startFree <= endFree && Sound(freelist[..], live, startFree)
    }

    /** The allocator once its pool holds the heap chunk [start, end): all lists empty. */
    constructor (start: int, end: int)
      requires start <= end
      ensures Valid() && fresh(freelist)
      ensures startFree == start && endFree == end && live == {}
      ensures forall i :: 0 <= i < NFREELISTS ==> freelist[i] == []
    {
      freelist := new seq<int>[NFREELISTS](_ => []);
      startFree := start;
      endFree := end;
      live := {};
      new;
      assert ListSpans(freelist[..]) == {};
    }

    /** chunk_alloc(sz, nobjs), in-pool cases: carve `got` objects of sz bytes from
        start_free; got == 0 stands for case 3, which needs the heap. */
    method ChunkAlloc(sz: nat, nobjs: nat) returns (res: int, got: nat)
      requires Valid() && sz > 0 && nobjs > 0
      modifies this`startFree
      ensures Valid()
      ensures (got, sz * got) == ChunkPlan(old(endFree - startFree), sz, nobjs)
      ensures res == old(startFree) && startFree == old(startFree) + sz * got
    {
      var plan := ChunkPlan(endFree - startFree, sz, nobjs);
      res := startFree;
      got := plan.0;
      startFree := startFree + plan.1;
    }

    /** refill(sz) for an aligned sz: take up to 20 blocks from the pool, return the first
        and thread the rest onto the (empty) free list of sz's class. */
    method Refill(sz: nat) returns (r: Allocation)
      requires Valid() && 1 <= sz <= MAX_BYTES && sz % ALIGN == 0
      requires freelist[FreelistIndex(sz)] == []
      modifies this, freelist
      ensures Valid() && freelist == old(freelist) && endFree == old(endFree)
      ensures r.Pooled? || r.PoolExhausted?
      ensures r.PoolExhausted? ==> live == old(live) && freelist[..] == old(freelist[..])
      ensures r.Pooled? ==> r.addr == old(startFree) && live == old(live) + {Span(r.addr, sz)}
      ensures r.Pooled? ==> Span(r.addr, sz) !in old(live)
      ensures r.Pooled? ==> forall k :: 0 <= k < |freelist[FreelistIndex(sz)]| ==>
        freelist[FreelistIndex(sz)][k] == r.addr + sz * (k + 1)
      ensures forall i :: 0 <= i < NFREELISTS && i != FreelistIndex(sz) ==> freelist[i] == old(freelist[i])
    {
      FreelistIndexClass(sz);
      var idx := FreelistIndex(sz);
      ghost var fl := freelist[..];
      ghost var oldLive := live;
      var chunk, nobjs := ChunkAlloc(sz, 20);
      if nobjs == 0 {
        return PoolExhausted;
      }
      assert RoundUp(sz) == sz;
      var chain := BuildChain(chunk, sz, nobjs);
      InstallKeepsSound(fl, oldLive, idx, chunk, sz, nobjs, chain);
      live := live + {Span(chunk, sz)};
      if nobjs > 1 {
        freelist[idx] := chain;
        assert freelist[..] == fl[idx := chain];
      } else {
        assert freelist[..] == fl;
      }
      r := Pooled(chunk);
    }

    /** allocate(sz) for sz > 0: large requests go to malloc_alloc; otherwise pop the head
        of the size class's free list, or refill that list from the pool when it is empty.
        refill is called with roundUp(sz); the source passes sz itself (see RefillChainAsWritten). */
    method Allocate(sz: nat) returns (r: Allocation)
      requires Valid() && sz > 0
      modifies this, freelist
      ensures Valid() && freelist == old(freelist) && endFree == old(endFree)
      ensures sz > MAX_BYTES ==> (r == FromMalloc(sz) && freelist[..] == old(freelist[..]) &&
        startFree == old(startFree) && live == old(live))
      ensures sz <= MAX_BYTES && old(freelist[FreelistIndex(sz)]) != [] ==>
        r == Pooled(old(freelist[FreelistIndex(sz)])[0]) &&
        freelist[FreelistIndex(sz)] == old(freelist[FreelistIndex(sz)])[1..] &&
        startFree == old(startFree)
      ensures sz <= MAX_BYTES && old(freelist[FreelistIndex(sz)]) == [] ==>
        (r.Pooled? && r.addr == old(startFree)) || r.PoolExhausted?
      ensures sz <= MAX_BYTES ==> forall i :: 0 <= i < NFREELISTS && i != FreelistIndex(sz) ==>
        freelist[i] == old(freelist[i])
      ensures r.Pooled? ==> (Span(r.addr, RoundUp(sz)) !in old(live) &&
        live == old(live) + {Span(r.addr, RoundUp(sz))})
      ensures r.Pooled? ==> forall x :: x in old(live) ==> Apart(x, Span(r.addr, RoundUp(sz)))
      ensures !r.Pooled? ==> live == old(live)
    {
      if sz > MAX_BYTES {
        return FromMalloc(sz);
      }
      FreelistIndexClass(sz);
      var idx := FreelistIndex(sz);
      if freelist[idx] == [] {
        RoundUpLeast(sz);
        FreelistIndexClass(RoundUp(sz));
        r := Refill(RoundUp(sz));
      } else {
        ghost var fl := freelist[..];
        var head := freelist[idx][0];
        ListSpansPop(fl, idx, live, startFree);
        live := live + {Span(head, RoundUp(sz))};
        freelist[idx] := freelist[idx][1..];
        assert freelist[..] == fl[idx := fl[idx][1..]];
        r := Pooled(head);
      }
      if r.Pooled? {
        assert Span(r.addr, RoundUp(sz)) in live + ListSpans(freelist[..]);
      }
    }

    /** deallocate(p, sz): large blocks go back to malloc_alloc; a pooled block is pushed
        onto the head of its size class's free list. */
    method Deallocate(p: int, sz: nat)
      requires Valid() && sz > 0
      requires sz <= MAX_BYTES ==> Span(p, RoundUp(sz)) in live
      modifies this`live, freelist
      ensures Valid()
      ensures sz > MAX_BYTES ==> freelist[..] == old(freelist[..]) && live == old(live)
      ensures sz <= MAX_BYTES ==> freelist[..] == old(freelist[..])[FreelistIndex(sz) := [p] + old(freelist[FreelistIndex(sz)])]
      ensures sz <= MAX_BYTES ==> live == old(live) - {Span(p, RoundUp(sz))}
    {
      if sz > MAX_BYTES {
        return;
      }
      FreelistIndexClass(sz);
      var idx := FreelistIndex(sz);
      ghost var fl := freelist[..];
      ghost var span := Span(p, RoundUp(sz));
      ListSpansPush(fl, idx, p);
      forall k | 0 <= k < |fl[idx]| ensures fl[idx][k] != p {
        assert Span(fl[idx][k], ClassSize(idx)) in ListSpans(fl);
      }
      live := live - {span};
      freelist[idx] := [p] + freelist[idx];
      assert freelist[..] == fl[idx := [p] + fl[idx]];
      assert live + ListSpans(freelist[..]) == old(live) + ListSpans(fl);
    }

    /** reallocate(p, old_sz, new_sz): realloc when both sizes are large; the same block
        when both round to the same class; otherwise allocate, copy and deallocate
        (the byte copy is not modelled). */
    method Reallocate(p: int, oldSz: nat, newSz: nat) returns (r: Allocation)
      requires Valid() && oldSz > 0 && newSz > 0
      requires oldSz <= MAX_BYTES ==> Span(p, RoundUp(oldSz)) in live
      modifies this, freelist
      ensures Valid() && freelist == old(freelist)
      ensures oldSz > MAX_BYTES && newSz > MAX_BYTES ==> (r == FromMalloc(newSz) &&
        freelist[..] == old(freelist[..]) && live == old(live))
      ensures !(oldSz > MAX_BYTES && newSz > MAX_BYTES) && RoundUp(oldSz) == RoundUp(newSz) ==>
        r == Pooled(p) && freelist[..] == old(freelist[..]) && live == old(live)
      ensures r.Pooled? && r.addr != p ==> Span(r.addr, RoundUp(newSz)) in live
    {
      if oldSz > MAX_BYTES && newSz > MAX_BYTES {
        return FromMalloc(newSz);
      }
      if RoundUp(oldSz) == RoundUp(newSz) {
        return Pooled(p);
      }
      r := Allocate(newSz);
      if r.Pooled? && oldSz <= MAX_BYTES {
        assert Span(p, RoundUp(oldSz)) != Span(r.addr, RoundUp(newSz));
      }
      Deallocate(p, oldSz);
    }
  }

  /** deallocate followed by allocate of the same class returns the same block (LIFO reuse). */
  method LifoReuse(a: DefaultAlloc, p: int, sz: nat) returns (r: Allocation)
    requires a.Valid() && 1 <= sz <= MAX_BYTES && Span(p, RoundUp(sz)) in a.live
    modifies a, a.freelist
    ensures a.Valid() && r == Pooled(p) && a.live == old(a.live)
  {
    a.Deallocate(p, sz);
    r := a.Allocate(sz);
  }

  /** The loop of refill: the addresses chunk + sz, ..., chunk + sz * (nobjs - 1), linked in order. */
  method BuildChain(chunk: int, sz: nat, nobjs: nat) returns (chain: seq<int>)
    requires nobjs > 0
    ensures |chain| == nobjs - 1
    ensures forall k :: 0 <= k < |chain| ==> chain[k] == chunk + sz * (k + 1)
  {
    chain := [];
    var i := 1;
    while i < nobjs
      invariant 1 <= i <= nobjs
      invariant |chain| == i - 1
      invariant forall k :: 0 <= k < i - 1 ==> chain[k] == chunk + sz * (k + 1)
    {
      chain := chain + [chunk + sz * i];
      i := i + 1;
    }
  }

  /** Handing out the first carved block and installing the rest as list idx keeps the
      allocator sound, with the pool now starting after the carved chunk. */
  lemma InstallKeepsSound(fl: seq<seq<int>>, live: set<Span>, idx: int, chunk: int, sz: nat,
                          nobjs: nat, chain: seq<int>)
    requires Sound(fl, live, chunk) && 0 <= idx < |fl| && fl[idx] == []
    requires ClassSize(idx) == sz && sz > 0 && RoundUp(sz) == sz && nobjs > 0
    requires |chain| == nobjs - 1
    requires forall k :: 0 <= k < |chain| ==> chain[k] == chunk + sz * (k + 1)
    ensures Sound(if nobjs > 1 then fl[idx := chain] else fl, live + {Span(chunk, sz)}, chunk + sz * nobjs)
  {
    var carved := {Span(chunk, sz)} + ChainSpans(chain, sz);
    FreshApart(chunk, sz, nobjs, chain);
    ApartUnion(live + ListSpans(fl), carved, chunk);
    var fl' := if nobjs > 1 then fl[idx := chain] else fl;
    if nobjs > 1 {
      ListSpansInstall(fl, idx, chain);
      forall i, k1, k2 | 0 <= i < |fl'| && 0 <= k1 < k2 < |fl'[i]| ensures fl'[i][k1] != fl'[i][k2] {
        if i == idx {
          MulMono(sz, k1 + 1, k2);
          assert sz * (k2 + 1) == sz * k2 + sz;
        }
      }
    } else {
      assert ChainSpans(chain, sz) == {};
    }
    assert live + {Span(chunk, sz)} + ListSpans(fl') == live + ListSpans(fl) + carved;
    MulMono(sz, 1, nobjs);
  }

  /** The blocks refill carves from [chunk, chunk + sz * nobjs) are pairwise apart. */
  lemma {:induction false} FreshApart(chunk: int, sz: nat, nobjs: nat, chain: seq<int>)
    requires sz > 0 && nobjs > 0 && RoundUp(sz) == sz
    requires |chain| == nobjs - 1
    requires forall k :: 0 <= k < |chain| ==> chain[k] == chunk + sz * (k + 1)
    ensures PairwiseApart({Span(chunk, sz)} + ChainSpans(chain, sz))
    ensures forall y :: y in {Span(chunk, sz)} + ChainSpans(chain, sz) ==>
      chunk <= y.addr && y.len == sz && y.addr + y.len <= chunk + sz * nobjs
    ensures Span(chunk, sz) !in ChainSpans(chain, sz)
  {
    if nobjs > 1 {
      RefillChainApart(chunk, sz, nobjs);
      var c := RefillChain(chunk, sz, nobjs);
      assert forall k :: 0 <= k < |chain| ==> c[k] == Span(chain[k], sz);
      var S := {Span(chunk, sz)} + ChainSpans(chain, sz);
      forall x, y | x in S && y in S && x != y ensures Apart(x, y) {
        if x != Span(chunk, sz) && y != Span(chunk, sz) {
          var k1 :| 0 <= k1 < |chain| && x == Span(chain[k1], sz);
          var k2 :| 0 <= k2 < |chain| && y == Span(chain[k2], sz);
          if k1 < k2 { assert Apart(c[k1], c[k2]); } else { assert Apart(c[k2], c[k1]); }
        } else if x != Span(chunk, sz) {
          var k1 :| 0 <= k1 < |chain| && x == Span(chain[k1], sz);
          assert c[k1].addr >= chunk + sz;
        } else {
          var k2 :| 0 <= k2 < |chain| && y == Span(chain[k2], sz);
          assert c[k2].addr >= chunk + sz;
        }
      }
      forall y | y in S ensures chunk <= y.addr && y.addr + y.len <= chunk + sz * nobjs {
        if y != Span(chunk, sz) {
          var k :| 0 <= k < |chain| && y == Span(chain[k], sz);
          assert c[k] == y;
        } else {
          MulMono(sz, 1, nobjs);
        }
      }
      forall k | 0 <= k < |chain| ensures Span(chain[k], sz) != Span(chunk, sz) {
        assert c[k].addr >= chunk + sz;
      }
    } else {
      assert ChainSpans(chain, sz) == {};
    }
  }
}
