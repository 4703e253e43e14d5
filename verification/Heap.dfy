/** The allocator's memory as a state machine: the arena image, the head of every
    freelist, and the four things that can happen to them - a block is taken, a block
    is given back, an owner writes into its block, everything is reset. */
module Heaps {
  import opened Bits
  import opened Memory
  import opened Pools

  datatype Heap = Heap(mem: seq<Byte>, heads: seq<nat>)

  /** Pools, first headers included, do not overlap. */
  predicate Apart(p: Pool, q: Pool) {
    p.End() + HEADER_BYTES <= q.base || q.End() + HEADER_BYTES <= p.base
  }

  /** The flat table of pools, as the allocator indexes it. */
  ghost predicate ValidLayout(L: seq<Pool>, size: nat) {
    && |L| < U16
    && (forall k | 0 <= k < |L| :: L[k].Fits(size) && LayoutSound(L[k], k))
    && (forall j, k | 0 <= j < k < |L| :: Apart(L[j], L[k]))
  }

  /** Freelist `k` runs through exactly the blocks `cs[k]`, and every block of pool `k`,
      free or in use, still carries `k` in its header. */
  ghost predicate PoolIntact(L: seq<Pool>, h: Heap, cs: seq<seq<nat>>, k: nat)
    requires k < |L| == |h.heads| == |cs|
  {
    FreeChain(h.mem, L[k], h.heads[k], cs[k]) && HeadersAre(h.mem, L[k], k)
  }

  ghost predicate HeapInv(L: seq<Pool>, h: Heap, cs: seq<seq<nat>>) {
    && |L| == |h.heads| == |cs|
    && ValidLayout(L, |h.mem|)
    && forall k | 0 <= k < |L| :: PoolIntact(L, h, cs, k)
  }

  /** Block `a` of pool `k` is in use: some caller owns its payload. */
  predicate Live(L: seq<Pool>, cs: seq<seq<nat>>, k: nat, a: nat) {
    k < |L| == |cs| && L[k].stride > 0 && L[k].IsBlock(a) && a !in cs[k]
  }

  /** Every block of every pool free, in address order. */
  function AllFree(L: seq<Pool>): seq<seq<nat>> {
    seq(|L|, k requires 0 <= k < |L| => AddressOrder(L[k]))
  }

  // ---------------------------------------------------------------- local changes

  /** A change confined to block `a` of `p` that spares the header of the next block. */
  ghost predicate Touches(m: seq<Byte>, m': seq<Byte>, p: Pool, a: nat) {
    && p.Fits(|m|) && p.IsBlock(a)
    && SameOutside(m, m', a, a + p.stride)
    && (a + p.stride < p.End() ==> m'[a + p.stride - 2..a + p.stride] == m[a + p.stride - 2..a + p.stride])
  }

  lemma {:induction false} NextIsBlock(p: Pool, a: nat)
    requires p.stride > 0 && p.IsBlock(a)
    ensures a + p.stride <= p.End()
    ensures a + p.stride < p.End() ==> p.IsBlock(a + p.stride)
  {
    var i := BlockIndex(p, a);
    BlockBounds(p, i);
    if i + 1 < p.count { BlockInPool(p, i + 1); }
  }

  /** With stride 8 the link ends in the header of the next block, both zero there. */
  lemma {:induction false} SharedTail(m: seq<Byte>, m': seq<Byte>, p: Pool, a: nat)
    requires HeadersAre(m, p, 0) && p.stride == 8 && p.IsBlock(a) && a + 8 < p.End()
    requires |m'| == |m| && m'[a + 6] == 0 && m'[a + 7] == 0
    ensures m'[a + 6..a + 8] == m[a + 6..a + 8]
  {
    NextIsBlock(p, a);
    var b := a + 8;
    assert ReadHeader(m, b) == 0;
    assert m[b - 2] == 0 && m[b - 1] == 0;
    assert m'[b - 2..b] == [m'[b - 2], m'[b - 1]] && m[b - 2..b] == [m[b - 2], m[b - 1]];
  }

  /** Linking a block touches that block only. */
  lemma {:induction false} LinkTouches(m: seq<Byte>, p: Pool, index: nat, a: nat, v: nat)
    requires HeadersAre(m, p, index) && LayoutSound(p, index) && p.IsBlock(a) && v < ADDRESS_LIMIT
    ensures a + LINK_BYTES <= |m| && Touches(m, WriteLink(m, a, v), p, a)
  {
    NextIsBlock(p, a);
    StoredLink(m, a, v);
    SingleBlock(p, a);
    var m' := WriteLink(m, a, v);
    if a + p.stride < p.End() {
      if p.stride < 16 {
        SharedTail(m, m', p, a);
      } else {
        assert m'[a + p.stride - 2..a + p.stride] == m[a + p.stride - 2..a + p.stride];
      }
    }
  }

  lemma {:induction false} SingleBlock(p: Pool, a: nat)
    requires p.stride > 0 && p.IsBlock(a)
    ensures p.count == 1 ==> a + p.stride == p.End()
  {
    var i := BlockIndex(p, a);
    BlockBounds(p, i);
  }

  /** Writing into the payload of a block touches that block only. */
  lemma {:induction false} PayloadTouches(m: seq<Byte>, p: Pool, a: nat, offset: nat, data: seq<Byte>)
    requires p.Fits(|m|) && p.IsBlock(a) && offset + |data| + HEADER_BYTES <= p.stride
    ensures a + offset + |data| <= |m| && Touches(m, Store(m, a + offset, data), p, a)
  {
    NextIsBlock(p, a);
  }

  /** Block `b` of `q` is not block `a` of `p`. */
  predicate OtherBlock(p: Pool, a: nat, q: Pool, b: nat) {
    Apart(p, q) || (p == q && a != b)
  }

  lemma {:induction false} LaterBlockKept(m: seq<Byte>, m': seq<Byte>, p: Pool, a: nat, b: nat)
    requires Touches(m, m', p, a) && p.IsBlock(b) && a < b
    ensures b + p.stride <= |m|
    ensures forall i | b - 2 <= i < b + p.stride :: m'[i] == m[i]
  {
    NextIsBlock(p, a);
    BlocksApart(p, a, b);
    if b == a + p.stride {
      assert m'[b - 2] == m'[b - 2..b][0] && m[b - 2] == m[b - 2..b][0];
      assert m'[b - 1] == m'[b - 2..b][1] && m[b - 1] == m[b - 2..b][1];
    } else {
      BlocksApart(p, a + p.stride, b);
    }
  }

  lemma {:induction false} IntervalKept(m: seq<Byte>, m': seq<Byte>, lo: int, hi: int, x: int, y: int)
    requires SameOutside(m, m', lo, hi) && 0 <= x && y <= |m| && (y <= lo || hi <= x)
    ensures forall i | x <= i < y :: m'[i] == m[i]
  {}

  /** Touching one block leaves header, link and payload of every other block alone. */
  lemma {:induction false} OtherBlockKept(m: seq<Byte>, m': seq<Byte>, p: Pool, a: nat, q: Pool, b: nat)
    requires Touches(m, m', p, a) && q.Fits(|m|) && q.IsBlock(b) && OtherBlock(p, a, q, b)
    ensures b + q.stride <= |m|
    ensures forall i | b - 2 <= i < b + q.stride :: m'[i] == m[i]
  {
    NextIsBlock(q, b);
    NextIsBlock(p, a);
    if !Apart(p, q) && a < b {
      LaterBlockKept(m, m', p, a, b);
    } else {
      if !Apart(p, q) { BlocksApart(p, b, a); }
      IntervalKept(m, m', a, a + p.stride, b - 2, b + q.stride);
    }
  }

  lemma {:induction false} OwnHeaderKept(m: seq<Byte>, m': seq<Byte>, p: Pool, a: nat)
    requires Touches(m, m', p, a)
    ensures a <= |m| && ReadHeader(m', a) == ReadHeader(m, a)
  {
    NextIsBlock(p, a);
  }

  lemma {:induction false} HeadersKept(m: seq<Byte>, m': seq<Byte>, p: Pool, a: nat, q: Pool, index: nat)
    requires Touches(m, m', p, a) && HeadersAre(m, q, index) && (p == q || Apart(p, q))
    ensures HeadersAre(m', q, index)
  {
    forall b | q.IsBlock(b)
      ensures ReadHeader(m', b) == index
    {
      if p == q && a == b { OwnHeaderKept(m, m', p, a); } else { OtherBlockKept(m, m', p, a, q, b); }
    }
  }

  lemma {:induction false} ChainKept(m: seq<Byte>, m': seq<Byte>, p: Pool, a: nat, q: Pool, head: nat, c: seq<nat>)
    requires Touches(m, m', p, a) && FreeChain(m, q, head, c) && (Apart(p, q) || (p == q && a !in c))
    ensures FreeChain(m', q, head, c)
  {
    forall j | 0 <= j < |c|
      ensures LinkIs(m', q, c[j], Follower(c, j))
    {
      assert LinkIs(m, q, c[j], Follower(c, j));
      OtherBlockKept(m, m', p, a, q, c[j]);
      SameLink(m, m', c[j]);
    }
  }

  lemma {:induction false} PoolsApart(L: seq<Pool>, size: nat, j: nat, k: nat)
    requires ValidLayout(L, size) && j < |L| && k < |L| && j != k
    ensures Apart(L[j], L[k])
  {
    if k < j { assert Apart(L[k], L[j]); }
  }

  lemma {:induction false} TouchKeepsPool(L: seq<Pool>, h: Heap, cs: seq<seq<nat>>, m': seq<Byte>, k: nat, a: nat, j: nat)
    requires HeapInv(L, h, cs) && k < |L| && Touches(h.mem, m', L[k], a) && j < |L|
    requires j == k ==> a !in cs[k]
    ensures PoolIntact(L, h.(mem := m'), cs, j)
  {
    if j != k { PoolsApart(L, |h.mem|, k, j); }
    assert PoolIntact(L, h, cs, j);
    HeadersKept(h.mem, m', L[k], a, L[j], j);
    ChainKept(h.mem, m', L[k], a, L[j], h.heads[j], cs[j]);
  }

  /** Touching a block in use keeps the whole heap intact. */
  lemma {:induction false} TouchKeepsHeap(L: seq<Pool>, h: Heap, cs: seq<seq<nat>>, m': seq<Byte>, k: nat, a: nat)
    requires HeapInv(L, h, cs) && Live(L, cs, k, a) && Touches(h.mem, m', L[k], a)
    ensures HeapInv(L, h.(mem := m'), cs)
  {
    forall j | 0 <= j < |L|
      ensures PoolIntact(L, h.(mem := m'), cs, j)
    {
      TouchKeepsPool(L, h, cs, m', k, a, j);
    }
  }

  // ---------------------------------------------------------------- one freelist

  /** Taking the first block of a chain. */
  lemma {:induction false} ChainPop(m: seq<Byte>, p: Pool, head: nat, c: seq<nat>)
    requires FreeChain(m, p, head, c)
    ensures head == 0 <==> c == []
    ensures head != 0 ==> head + LINK_BYTES <= |m| && p.IsBlock(head) && FreeChain(m, p, ReadLink(m, head), c[1..])
    ensures head != 0 ==> head !in c[1..]
  {
    if c != [] {
      assert p.IsBlock(c[0]);
      BlocksApart(p, c[0], c[0]);
      assert LinkIs(m, p, c[0], Follower(c, 0));
      forall j | 0 <= j < |c[1..]|
        ensures LinkIs(m, p, c[1..][j], Follower(c[1..], j))
      {
        assert LinkIs(m, p, c[j + 1], Follower(c, j + 1));
      }
    }
  }

  /** Putting a block in front of a chain. */
  lemma {:induction false} ChainPush(m: seq<Byte>, p: Pool, head: nat, c: seq<nat>, a: nat)
    requires FreeChain(m, p, head, c) && p.IsBlock(a) && a !in c
    requires a + LINK_BYTES <= |m| && Touches(m, WriteLink(m, a, head), p, a)
    ensures FreeChain(WriteLink(m, a, head), p, a, [a] + c)
  {
    var m', d := WriteLink(m, a, head), [a] + c;
    ChainHeadRange(m, p, head, c);
    StoredLink(m, a, head);
    ChainKept(m, m', p, a, p, head, c);
    forall j | 0 <= j < |d|
      ensures p.IsBlock(d[j]) && LinkIs(m', p, d[j], Follower(d, j))
    {
      if j > 0 { assert LinkIs(m', p, c[j - 1], Follower(c, j - 1)); }
    }
  }

  lemma {:induction false} ChainHeadRange(m: seq<Byte>, p: Pool, head: nat, c: seq<nat>)
    requires FreeChain(m, p, head, c)
    ensures head < ADDRESS_LIMIT
  {
    if c != [] { assert p.IsBlock(c[0]); }
  }
}
