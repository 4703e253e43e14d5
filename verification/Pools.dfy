/** Where the blocks of a pool lie, and what it means for a freelist threaded through
    them to be intact. */
module Pools {
  import opened Bits
  import opened Memory

  /** `count` blocks of `stride` bytes from address `base` on. */
  datatype Pool = Pool(base: nat, stride: nat, count: nat) {
    /** Address of block `i`: one stride after the block before it. */
    function Block(i: nat): (a: nat)
      ensures a >= base
    {
      if i == 0 then base else Block(i - 1) + stride
    }

    function End(): nat {
      Block(count)
    }

    predicate IsBlock(a: nat)
      requires stride > 0
    {
      base <= a < End() && (a - base) % stride == 0
    }

    /** A pool inside `size` bytes of memory, with room for its first header. */
    predicate Fits(size: nat) {
      && stride >= 8 && stride % 8 == 0 && count >= 1
      && HEADER_BYTES <= base && End() <= size <= ADDRESS_LIMIT
    }
  }

  lemma {:induction false} BlocksOrdered(p: Pool, i: nat, j: nat)
    requires i < j
    ensures p.Block(i) + p.stride <= p.Block(j)
    decreases j
  {
    if i < j - 1 { BlocksOrdered(p, i, j - 1); }
  }

  lemma {:induction false} BlockBounds(p: Pool, i: nat)
    requires i < p.count
    ensures p.base <= p.Block(i) && p.Block(i) + p.stride <= p.End()
    ensures p.Block(i + 1) == p.Block(i) + p.stride
  {
    BlocksOrdered(p, i, p.count);
  }

  lemma {:induction false} BlockFormula(p: Pool, i: nat)
    ensures p.Block(i) == p.base + i * p.stride
  {
    if i > 0 {
      BlockFormula(p, i - 1);
      assert i * p.stride == (i - 1) * p.stride + p.stride;
    }
  }

  lemma {:induction false} BlockInPool(p: Pool, i: nat)
    requires p.stride > 0 && i < p.count
    ensures p.IsBlock(p.Block(i))
  {
    BlockBounds(p, i);
    BlockFormula(p, i);
    DivModUnique(i * p.stride, p.stride, i, 0);
  }

  /** Every block address is `Block(i)` for exactly one index. */
  lemma {:induction false} BlockIndex(p: Pool, a: nat) returns (i: nat)
    requires p.stride > 0 && p.IsBlock(a)
    ensures i < p.count && a == p.Block(i)
  {
    i := (a - p.base) / p.stride;
    DivTimes(a - p.base, p.stride);
    BlockFormula(p, i);
    if i > p.count { BlocksOrdered(p, p.count, i); }
  }

  /** Distinct blocks do not overlap, and every block ends inside its pool. */
  lemma {:induction false} BlocksApart(p: Pool, a: nat, b: nat)
    requires p.stride > 0 && p.IsBlock(a) && p.IsBlock(b)
    ensures a < b ==> a + p.stride <= b
    ensures b < a ==> b + p.stride <= a
    ensures a + p.stride <= p.End() && b + p.stride <= p.End()
  {
    var i := BlockIndex(p, a);
    var j := BlockIndex(p, b);
    BlockBounds(p, i);
    BlockBounds(p, j);
    if i < j { BlocksOrdered(p, i, j); }
    if j < i { BlocksOrdered(p, j, i); }
  }

  // ---------------------------------------------------------------- freelists

  ghost predicate Distinct(c: seq<nat>) {
    forall i, j | 0 <= i < j < |c| :: c[i] != c[j]
  }

  function First(c: seq<nat>): nat {
    if c == [] then 0 else c[0]
  }

  /** What the link of the `j`-th block of a chain holds. */
  function Follower(c: seq<nat>, j: nat): nat {
    if j + 1 < |c| then c[j + 1] else 0
  }

  /** Following the links from `head` visits exactly the blocks of `c`, in order, all of
      them blocks of `p`, none twice, and ends at null. */
  ghost predicate FreeChain(m: seq<Byte>, p: Pool, head: nat, c: seq<nat>) {
    && p.Fits(|m|)
    && (forall j | 0 <= j < |c| :: p.IsBlock(c[j]))
    && Distinct(c)
    && head == First(c)
    && (forall j {:trigger Follower(c, j)} | 0 <= j < |c| :: LinkIs(m, p, c[j], Follower(c, j)))
  }

  predicate LinkIs(m: seq<Byte>, p: Pool, a: nat, v: nat)
    requires p.Fits(|m|) && p.IsBlock(a)
  {
    BlocksApart(p, a, a);
    ReadLink(m, a) == v
  }

  /** Every block of `p` carries `index` in its header. */
  ghost predicate HeadersAre(m: seq<Byte>, p: Pool, index: nat) {
    && p.Fits(|m|)
    && forall a | p.IsBlock(a) :: ReadHeader(m, a) == index
  }

  /** All blocks in address order. */
  function AddressOrder(p: Pool): (c: seq<nat>)
    ensures |c| == p.count
    ensures forall j | 0 <= j < p.count :: c[j] == p.Block(j)
  {
    seq(p.count, j requires 0 <= j < p.count => p.Block(j))
  }

  lemma {:induction false} AddressOrderDistinct(p: Pool)
    requires p.stride > 0
    ensures Distinct(AddressOrder(p))
    ensures forall j | 0 <= j < p.count :: p.IsBlock(AddressOrder(p)[j])
  {
    forall j | 0 <= j < p.count
      ensures p.IsBlock(AddressOrder(p)[j])
    {
      BlockInPool(p, j);
    }
    forall i, j | 0 <= i < j < p.count
      ensures p.Block(i) != p.Block(j)
    {
      BlocksOrdered(p, i, j);
    }
  }

  /** Where following the links of a chain leads after `n` steps. */
  function Reached(c: seq<nat>, n: nat): nat {
    if n < |c| then c[n] else 0
  }

  lemma {:induction false} SameWay(m: seq<Byte>, p: Pool, head: nat, c: seq<nat>, d: seq<nat>, n: nat)
    requires FreeChain(m, p, head, c) && FreeChain(m, p, head, d)
    requires n <= |c| && n <= |d|
    ensures Reached(c, n) == Reached(d, n)
  {
    if n > 0 {
      SameWay(m, p, head, c, d, n - 1);
      assert LinkIs(m, p, c[n - 1], Follower(c, n - 1)) && LinkIs(m, p, d[n - 1], Follower(d, n - 1));
    }
  }

  lemma {:induction false} ReachedNonNull(m: seq<Byte>, p: Pool, head: nat, c: seq<nat>, n: nat)
    requires FreeChain(m, p, head, c)
    ensures Reached(c, n) == 0 <==> n >= |c|
  {
    if n < |c| { assert p.IsBlock(c[n]); }
  }

  /** Two chains that follow the same links from the same head are the same chain. */
  lemma {:induction false} ChainUnique(m: seq<Byte>, p: Pool, head: nat, c: seq<nat>, d: seq<nat>)
    requires FreeChain(m, p, head, c) && FreeChain(m, p, head, d)
    ensures c == d
  {
    var n := if |c| <= |d| then |c| else |d|;
    SameWay(m, p, head, c, d, n);
    ReachedNonNull(m, p, head, c, n);
    ReachedNonNull(m, p, head, d, n);
    forall j | 0 <= j < n
      ensures c[j] == d[j]
    {
      SameWay(m, p, head, c, d, j);
    }
  }

  // ---------------------------------------------------------------- initialize and reset

  /** The link `initialize` and `reset` store in block `n`. */
  function NextBlock(p: Pool, n: nat): nat {
    if n + 1 < p.count then p.Block(n + 1) else 0
  }

  function LinkOne(m: seq<Byte>, p: Pool, n: nat): (m': seq<Byte>)
    requires p.Fits(|m|) && n < p.count
    ensures |m'| == |m|
  {
    BlockBounds(p, n);
    WriteLink(m, p.Block(n), NextBlock(p, n))
  }

  function HeadOne(m: seq<Byte>, p: Pool, index: nat, n: nat): (m': seq<Byte>)
    requires p.Fits(|m|) && n < p.count
    ensures |m'| == |m|
  {
    BlockBounds(p, n);
    WriteHeader(m, p.Block(n), index)
  }

  /** `initialize` after `n` rounds: header, then link, of each block in turn. */
  function InitBlocks(m: seq<Byte>, p: Pool, index: nat, n: nat): (m': seq<Byte>)
    requires p.Fits(|m|) && n <= p.count
    ensures |m'| == |m|
  {
    if n == 0 then m else LinkOne(HeadOne(InitBlocks(m, p, index, n - 1), p, index, n - 1), p, n - 1)
  }

  /** `reset` after linking the first `n` blocks. */
  function ResetLinks(m: seq<Byte>, p: Pool, n: nat): (m': seq<Byte>)
    requires p.Fits(|m|) && n <= p.count
    ensures |m'| == |m|
  {
    if n == 0 then m else LinkOne(ResetLinks(m, p, n - 1), p, n - 1)
  }

  /** A header survives the link of the block before it: the stride leaves room for
      both, or the overlapping bytes are zero in both, or there is no block before. */
  predicate LayoutSound(p: Pool, index: nat) {
    p.stride >= 16 || index == 0 || p.count == 1
  }

  /** Memory differs at most in `[lo, hi)`. */
  ghost predicate SameOutside(m: seq<Byte>, m': seq<Byte>, lo: int, hi: int) {
    |m'| == |m| && forall a | 0 <= a < |m| && !(lo <= a < hi) :: m'[a] == m[a]
  }

  predicate LinkedAt(m: seq<Byte>, p: Pool, i: nat)
    requires p.Fits(|m|) && i < p.count
  {
    BlockBounds(p, i);
    ReadLink(m, p.Block(i)) == NextBlock(p, i)
  }

  predicate HeaderAt(m: seq<Byte>, p: Pool, index: nat, i: nat)
    requires p.Fits(|m|) && i < p.count
  {
    BlockBounds(p, i);
    ReadHeader(m, p.Block(i)) == index
  }

  /** Changing no byte below block `n`, save possibly its header where the stride leaves
      the link before it clear, keeps the link of every block `i < n`. */
  lemma {:induction false} LinkBelowKept(m: seq<Byte>, m': seq<Byte>, p: Pool, n: nat, i: nat)
    requires p.Fits(|m|) && |m'| == |m| && i < n < p.count && LinkedAt(m, p, i)
    requires forall a | 0 <= a < |m| && a + (if p.stride >= 16 then 2 else 0) < p.Block(n) :: m'[a] == m[a]
    ensures LinkedAt(m', p, i)
  {
    BlockBounds(p, i);
    BlocksOrdered(p, i, n);
    SameLink(m, m', p.Block(i));
  }

  /** With stride 8 the link just stored in block `n` ends in the header of the next. */
  lemma {:induction false} HeaderSharedKept(m: seq<Byte>, m': seq<Byte>, p: Pool, n: nat, b: nat)
    requires p.Fits(|m|) && |m'| == |m| && p.stride == 8 && n + 1 < p.count && HeaderAt(m, p, 0, n + 1)
    requires b == p.Block(n) && b + LINK_BYTES <= |m| && m'[b + 6] == m'[b + 7] == 0
    ensures HeaderAt(m', p, 0, n + 1)
  {
    BlockBounds(p, n);
  }

  lemma {:induction false} HeaderClear(m: seq<Byte>, m': seq<Byte>, p: Pool, k: nat, b: nat, i: nat)
    requires p.Fits(|m|) && |m'| == |m| && i < p.count && HeaderAt(m, p, k, i)
    requires SameOutside(m, m', b, b + LINK_BYTES)
    requires p.Block(i) <= b || p.Block(i) >= b + LINK_BYTES + HEADER_BYTES
    ensures HeaderAt(m', p, k, i)
  {
    BlockBounds(p, i);
  }

  /** The header of block `i` lies outside the link of block `n`, unless it is the next
      one at stride 8. */
  lemma {:induction false} HeaderAway(p: Pool, n: nat, i: nat)
    requires i < p.count && n < p.count && p.stride >= 8 && (p.stride >= 16 || i != n + 1)
    ensures p.Block(i) <= p.Block(n) || p.Block(i) >= p.Block(n) + LINK_BYTES + HEADER_BYTES
  {
    if i < n { BlocksOrdered(p, i, n); }
    if n < i { BlocksOrdered(p, n, i); }
    if n + 1 < i { BlocksOrdered(p, n + 1, i); }
  }

  /** Where a header can lie inside the link before it, the stride is 8 and the index 0. */
  lemma {:induction false} NarrowStride(p: Pool, index: nat, n: nat)
    requires p.stride >= 8 && p.stride % 8 == 0 && p.stride < 16 && LayoutSound(p, index) && n + 1 < p.count
    ensures p.stride == 8 && index == 0
  {}

  lemma {:induction false} HeaderOtherThan(m: seq<Byte>, m': seq<Byte>, p: Pool, k: nat, n: nat, b: nat, i: nat)
    requires p.Fits(|m|) && |m'| == |m| && i < p.count && n < p.count && HeaderAt(m, p, k, i)
    requires LayoutSound(p, k) && b == p.Block(n) && b + LINK_BYTES <= |m| && m'[b + 6] == m'[b + 7] == 0
    requires SameOutside(m, m', b, b + LINK_BYTES)
    ensures HeaderAt(m', p, k, i)
  {
    if p.stride < 16 && i == n + 1 {
      NarrowStride(p, k, n);
      HeaderSharedKept(m, m', p, n, b);
    } else {
      HeaderAway(p, n, i);
      HeaderClear(m, m', p, k, b, i);
    }
  }

  /** Storing the link of block `n` links it, keeps the links of the blocks below it,
      and keeps all headers when the layout is sound. */
  lemma {:induction false} LinkStep(m: seq<Byte>, p: Pool, index: nat, n: nat)
    requires p.Fits(|m|) && n < p.count && LayoutSound(p, index)
    ensures var m' := LinkOne(m, p, n);
            && LinkedAt(m', p, n)
            && (forall i: nat | i < n && LinkedAt(m, p, i) :: LinkedAt(m', p, i))
            && (forall i: nat | i < p.count && HeaderAt(m, p, index, i) :: HeaderAt(m', p, index, i))
            && SameOutside(m, m', p.base, p.End())
  {
    BlockBounds(p, n);
    if n + 1 < p.count { BlockBounds(p, n + 1); }
    StoredLink(m, p.Block(n), NextBlock(p, n));
    var m' := LinkOne(m, p, n);
    forall i: nat | i < n && LinkedAt(m, p, i)
      ensures LinkedAt(m', p, i)
    {
      LinkBelowKept(m, m', p, n, i);
    }
    forall i: nat | i < p.count && HeaderAt(m, p, index, i)
      ensures HeaderAt(m', p, index, i)
    {
      HeaderOtherThan(m, m', p, index, n, p.Block(n), i);
    }
  }

  /** Storing the header of block `n` keeps the headers below it, and the links below
      it when the layout is sound. */
  lemma {:induction false} HeaderStep(m: seq<Byte>, p: Pool, index: nat, n: nat)
    requires p.Fits(|m|) && n < p.count && index < U16
    ensures var m' := HeadOne(m, p, index, n);
            && HeaderAt(m', p, index, n)
            && (forall i: nat | i < n && HeaderAt(m, p, index, i) :: HeaderAt(m', p, index, i))
            && (p.stride >= 16 ==> forall i: nat | i < n && LinkedAt(m, p, i) :: LinkedAt(m', p, i))
            && SameOutside(m, m', p.base - 2, p.End())
  {
    BlockBounds(p, n);
    var m' := HeadOne(m, p, index, n);
    forall i: nat | i < n && HeaderAt(m, p, index, i)
      ensures HeaderAt(m', p, index, i)
    {
      BlockBounds(p, i);
      BlocksOrdered(p, i, n);
    }
    if p.stride >= 16 {
      forall i: nat | i < n && LinkedAt(m, p, i)
        ensures LinkedAt(m', p, i)
      {
        LinkBelowKept(m, m', p, n, i);
      }
    }
  }

  lemma {:induction false} LinkInRange(m: seq<Byte>, p: Pool, i: nat)
    requires p.Fits(|m|) && i < p.count && LinkedAt(m, p, i)
    ensures p.Block(i) + LINK_BYTES <= |m| && ReadLink(m, p.Block(i)) < ADDRESS_LIMIT
  {
    BlockBounds(p, i);
    if i + 1 < p.count { BlockBounds(p, i + 1); }
  }

  /** With stride 8 the header of a block shares two bytes with the link of the block
      before it. Index 0 writes there what a stored address has there anyway: zeros. */
  lemma {:induction false} HeaderStepShared(m: seq<Byte>, p: Pool, n: nat, i: nat)
    requires p.Fits(|m|) && p.stride == 8 && i < n < p.count && LinkedAt(m, p, i)
    ensures LinkedAt(HeadOne(m, p, 0, n), p, i)
  {
    BlockBounds(p, i);
    var b, m' := p.Block(i), HeadOne(m, p, 0, n);
    if n > i + 1 {
      BlocksOrdered(p, i + 1, n);
      SameLink(m, m', b);
    } else {
      assert p.Block(n) == b + LINK_BYTES;
      LinkInRange(m, p, i);
      ZeroTopKeepsLink(m, m', b);
    }
  }

  /** The first `n` blocks are linked in address order and carry the header `index`. */
  ghost predicate Ready(m: seq<Byte>, p: Pool, index: nat, n: nat) {
    p.Fits(|m|) && n <= p.count && forall i: nat | i < n :: LinkedAt(m, p, i) && HeaderAt(m, p, index, i)
  }

  lemma {:induction false} SameOutsideTrans(m: seq<Byte>, m': seq<Byte>, m'': seq<Byte>, lo: int, hi: int)
    requires SameOutside(m, m', lo, hi) && SameOutside(m', m'', lo, hi)
    ensures SameOutside(m, m'', lo, hi)
  {}

  lemma {:induction false} InitStep(m: seq<Byte>, m': seq<Byte>, p: Pool, index: nat, n: nat)
    requires p.Fits(|m|) && n < p.count && index < U16 && LayoutSound(p, index)
    requires Ready(m, p, index, n)
    requires m' == LinkOne(HeadOne(m, p, index, n), p, n)
    ensures Ready(m', p, index, n + 1)
    ensures SameOutside(m, m', p.base - 2, p.End())
  {
    HeaderStep(m, p, index, n);
    var h := HeadOne(m, p, index, n);
    forall i: nat | i < n
      ensures LinkedAt(h, p, i)
    {
      if p.stride < 16 { HeaderStepShared(m, p, n, i); }
    }
    LinkStep(h, p, index, n);
  }

  lemma {:induction false} InitBlocksProgress(m: seq<Byte>, m': seq<Byte>, p: Pool, index: nat, n: nat)
    requires p.Fits(|m|) && n <= p.count && index < U16 && LayoutSound(p, index)
    requires m' == InitBlocks(m, p, index, n)
    ensures Ready(m', p, index, n)
    ensures SameOutside(m, m', p.base - 2, p.End())
    decreases n
  {
    if n > 0 {
      var m1 := InitBlocks(m, p, index, n - 1);
      InitBlocksProgress(m, m1, p, index, n - 1);
      InitStep(m1, m', p, index, n - 1);
      SameOutsideTrans(m, m1, m', p.base - 2, p.End());
    }
  }

  /** Links of all blocks in place make the address-ordered chain. */
  lemma {:induction false} LinkedIsChain(m: seq<Byte>, p: Pool)
    requires p.Fits(|m|) && forall i: nat | i < p.count :: LinkedAt(m, p, i)
    ensures FreeChain(m, p, p.base, AddressOrder(p))
  {
    AddressOrderDistinct(p);
    var c := AddressOrder(p);
    forall j | 0 <= j < |c|
      ensures LinkIs(m, p, c[j], Follower(c, j))
    {
      assert LinkedAt(m, p, j);
    }
  }

  lemma {:induction false} HeadersEverywhere(m: seq<Byte>, p: Pool, index: nat)
    requires p.Fits(|m|)
    ensures HeadersAre(m, p, index) <==> forall i: nat | i < p.count :: HeaderAt(m, p, index, i)
  {
    if forall i: nat | i < p.count :: HeaderAt(m, p, index, i) {
      forall a | p.IsBlock(a)
        ensures ReadHeader(m, a) == index
      {
        var i := BlockIndex(p, a);
        assert HeaderAt(m, p, index, i);
      }
    }
    if HeadersAre(m, p, index) {
      forall i: nat | i < p.count
        ensures HeaderAt(m, p, index, i)
      {
        BlockInPool(p, i);
      }
    }
  }

  /** `initialize` on a pool whose layout is sound: the chain runs through all blocks
      in address order, every header names the pool, and nothing else is touched. */
  lemma {:induction false} InitializeSound(m: seq<Byte>, p: Pool, index: nat)
    requires p.Fits(|m|) && index < U16 && LayoutSound(p, index)
    ensures var m' := InitBlocks(m, p, index, p.count);
            && FreeChain(m', p, p.base, AddressOrder(p))
            && HeadersAre(m', p, index)
            && SameOutside(m, m', p.base - 2, p.End())
  {
    var m' := InitBlocks(m, p, index, p.count);
    InitBlocksProgress(m, m', p, index, p.count);
    LinkedIsChain(m', p);
    HeadersEverywhere(m', p, index);
  }

  /** The first `n` links are in place and no header has changed. */
  ghost predicate Relinked(m: seq<Byte>, m': seq<Byte>, p: Pool, index: nat, n: nat) {
    && p.Fits(|m|) && n <= p.count && SameOutside(m, m', p.base, p.End())
    && (forall i: nat | i < n :: LinkedAt(m', p, i))
    && (forall i: nat | i < p.count && HeaderAt(m, p, index, i) :: HeaderAt(m', p, index, i))
  }

  lemma {:induction false} RelinkStep(m: seq<Byte>, m1: seq<Byte>, m': seq<Byte>, p: Pool, index: nat, n: nat)
    requires n < p.count && LayoutSound(p, index) && Relinked(m, m1, p, index, n)
    requires m' == LinkOne(m1, p, n)
    ensures Relinked(m, m', p, index, n + 1)
  {
    LinkStep(m1, p, index, n);
  }

  lemma {:induction false} ResetProgress(m: seq<Byte>, m': seq<Byte>, p: Pool, index: nat, n: nat)
    requires p.Fits(|m|) && n <= p.count && LayoutSound(p, index) && m' == ResetLinks(m, p, n)
    ensures Relinked(m, m', p, index, n)
    decreases n
  {
    if n > 0 {
      var m1 := ResetLinks(m, p, n - 1);
      ResetProgress(m, m1, p, index, n - 1);
      RelinkStep(m, m1, m', p, index, n - 1);
    }
  }

  /** `reset`, from whatever state the links are in, rebuilds exactly the chain that
      `initialize` built, and every header keeps its value. */
  lemma {:induction false} ResetSound(m: seq<Byte>, p: Pool, index: nat)
    requires HeadersAre(m, p, index) && LayoutSound(p, index)
    ensures var m' := ResetLinks(m, p, p.count);
            && FreeChain(m', p, p.base, AddressOrder(p))
            && HeadersAre(m', p, index)
            && SameOutside(m, m', p.base, p.End())
  {
    var m' := ResetLinks(m, p, p.count);
    ResetProgress(m, m', p, index, p.count);
    LinkedIsChain(m', p);
    HeadersEverywhere(m, p, index);
    HeadersEverywhere(m', p, index);
  }

  // ---------------------------------------------------------------- stride 8

  /** With stride 8 every header overwrites the top of the link before it, and from the
      second round of `initialize` on that damage stays. */
  lemma {:induction false} DamageStays(m: seq<Byte>, m': seq<Byte>, p: Pool, index: nat, n: nat)
    requires p.Fits(|m|) && p.stride == 8 && 2 <= n <= p.count && index < U16
    requires m' == InitBlocks(m, p, index, n)
    ensures |m'| == |m| && HeaderAt(m', p, index, 1)
    decreases n
  {
    var m1 := InitBlocks(m, p, index, n - 1);
    HeaderStep(m1, p, index, n - 1);
    var h := HeadOne(m1, p, index, n - 1);
    if n > 2 {
      DamageStays(m, m1, p, index, n - 1);
      BlocksOrdered(p, 1, n - 1);
    }
    BlockBounds(p, n - 1);
    HeaderClear(h, m', p, index, p.Block(n - 1), 1);
  }

  lemma {:induction false} DamagedLink(m: seq<Byte>, b: nat)
    requires b + LINK_BYTES <= |m| <= ADDRESS_LIMIT && ReadHeader(m, b + LINK_BYTES) > 0
    ensures ReadLink(m, b) >= ADDRESS_LIMIT
  {
    var s := m[b..b + LINK_BYTES];
    assert s[6] == m[b + 6] && s[7] == m[b + 7];
    DecodeEight(s);
  }

  lemma {:induction false} SecondHeader(m: seq<Byte>, p: Pool, index: nat)
    requires p.Fits(|m|) && p.stride == 8 && p.count > 1 && HeaderAt(m, p, index, 1)
    ensures p.base + LINK_BYTES <= |m| && ReadHeader(m, p.base + LINK_BYTES) == index
  {
    BlockBounds(p, 1);
    assert p.Block(0) == p.base;
  }

  lemma {:induction false} FirstLinkInside(m: seq<Byte>, p: Pool)
    requires p.Fits(|m|) && p.count > 1 && FreeChain(m, p, p.base, AddressOrder(p))
    ensures ReadLink(m, p.base) < ADDRESS_LIMIT
  {
    BlockBounds(p, 1);
    var c := AddressOrder(p);
    assert LinkIs(m, p, c[0], Follower(c, 0));
  }

  /** With stride 8 and a non-zero pool index, the header of the second block lands in
      the high bytes of the first block's link, which then leads nowhere. */
  lemma {:induction false} UnsoundBreaks(m: seq<Byte>, m': seq<Byte>, p: Pool, index: nat)
    requires p.Fits(|m|) && p.stride == 8 && p.count > 1 && 0 < index < U16
    requires m' == InitBlocks(m, p, index, p.count)
    ensures !FreeChain(m', p, p.base, AddressOrder(p))
  {
    DamageStays(m, m', p, index, p.count);
    SecondHeader(m', p, index);
    DamagedLink(m', p.base);
    if FreeChain(m', p, p.base, AddressOrder(p)) {
      FirstLinkInside(m', p);
    }
  }

  /** `initialize` leaves a working freelist exactly when the layout is sound: stride 8
      works for pool index 0 (or a single block) and for nothing else. */
  lemma {:induction false} InitializeSoundIff(m: seq<Byte>, p: Pool, index: nat)
    requires p.Fits(|m|) && index < U16
    ensures var m' := InitBlocks(m, p, index, p.count);
            FreeChain(m', p, p.base, AddressOrder(p)) && HeadersAre(m', p, index) <==> LayoutSound(p, index)
  {
    var m' := InitBlocks(m, p, index, p.count);
    if LayoutSound(p, index) {
      InitializeSound(m, p, index);
    } else {
      UnsoundBreaks(m, m', p, index);
    }
  }
}
