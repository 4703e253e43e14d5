/** What the allocator does to its heap, and what every run of it keeps. The heap
    refines a table of free sequences: taking pops a front, giving back pushes one. */
module HeapRuns {
  import opened Bits
  import opened Memory
  import opened Pools
  import opened Heaps
  import opened Permutations

  // ---------------------------------------------------------------- the operations

  /** The fallback scan of `alloc`: the first freelist at or above `k` with a free
      block, or `|heads|` when all of them are exhausted. */
  function FirstAvailable(heads: seq<nat>, k: nat): (j: nat)
    requires k <= |heads|
    ensures k <= j <= |heads|
    ensures j < |heads| ==> heads[j] != 0
    ensures forall i | k <= i < j :: heads[i] == 0
    decreases |heads| - k
  {
    if k == |heads| || heads[k] != 0 then k else FirstAvailable(heads, k + 1)
  }

  /** Every head is null or the address of storage for a link. */
  predicate HeadsReadable(h: Heap) {
    forall k | 0 <= k < |h.heads| :: h.heads[k] == 0 || h.heads[k] + LINK_BYTES <= |h.mem|
  }

  /** `alloc` from first-choice freelist `k`: the block served (null when exhausted)
      and the heap afterwards. */
  function Take(h: Heap, k: nat): (Heap, nat)
    requires k <= |h.heads| && HeadsReadable(h)
  {
    var j := FirstAvailable(h.heads, k);
    if j == |h.heads| then (h, 0)
    else (h.(heads := h.heads[j := ReadLink(h.mem, h.heads[j])]), h.heads[j])
  }

  predicate Returnable(h: Heap, b: nat) {
    b == 0 || (HEADER_BYTES <= b && b + LINK_BYTES <= |h.mem| && ReadHeader(h.mem, b) < |h.heads|)
  }

  /** `free`: the header in front of the block says which freelist gets it back. */
  function GiveBack(h: Heap, b: nat): Heap
    requires Returnable(h, b)
  {
    if b == 0 then h
    else
      var k := ReadHeader(h.mem, b);
      Heap(WriteLink(h.mem, b, h.heads[k]), h.heads[k := b])
  }

  /** A caller writes `data` into its block `b`. */
  function Write(h: Heap, b: nat, offset: nat, data: seq<Byte>): Heap
    requires b + offset + |data| <= |h.mem|
  {
    h.(mem := Store(h.mem, b + offset, data))
  }

  /** One freelist of the table back to its initial chain. */
  function ResetOne(L: seq<Pool>, h: Heap, k: nat): (h': Heap)
    requires k < |L| == |h.heads| && L[k].Fits(|h.mem|)
    ensures |h'.mem| == |h.mem| && |h'.heads| == |h.heads|
  {
    Heap(ResetLinks(h.mem, L[k], L[k].count), h.heads[k := L[k].base])
  }

  /** `AllocatorCore::reset`: every freelist of the table in turn, here the first `n`. */
  function ResetAll(L: seq<Pool>, h: Heap, n: nat): (h': Heap)
    requires n <= |L| == |h.heads| && forall k | 0 <= k < |L| :: L[k].Fits(|h.mem|)
    ensures |h'.mem| == |h.mem| && |h'.heads| == |h.heads|
  {
    if n == 0 then h else ResetOne(L, ResetAll(L, h, n - 1), n - 1)
  }

  // ---------------------------------------------------------------- each operation is right

  lemma {:induction false} InvReadable(L: seq<Pool>, h: Heap, cs: seq<seq<nat>>)
    requires HeapInv(L, h, cs)
    ensures HeadsReadable(h)
    ensures forall k | 0 <= k < |L| :: h.heads[k] == 0 <==> cs[k] == []
  {
    forall k | 0 <= k < |L|
      ensures h.heads[k] == 0 || h.heads[k] + LINK_BYTES <= |h.mem|
      ensures h.heads[k] == 0 <==> cs[k] == []
    {
      assert PoolIntact(L, h, cs, k);
      ChainPop(h.mem, L[k], h.heads[k], cs[k]);
    }
  }

  /** `alloc` serves the front block of the first non-empty freelist at or above its
      first choice and gives up only when all of those are empty. The block was free,
      is in use afterwards, and no byte of memory has changed. */
  lemma {:induction false} TakeRefines(L: seq<Pool>, h: Heap, cs: seq<seq<nat>>, k: nat)
    requires HeapInv(L, h, cs) && k <= |L|
    ensures HeadsReadable(h)
    ensures var (h', b) := Take(h, k); var j := FirstAvailable(h.heads, k);
            && h'.mem == h.mem
            && (b == 0 ==> h' == h && forall i | k <= i < |L| :: cs[i] == [])
            && (b != 0 ==>
                  && k <= j < |L| && cs[j] != [] && b == cs[j][0]
                  && (forall i | k <= i < j :: cs[i] == [])
                  && HeapInv(L, h', cs[j := cs[j][1..]])
                  && !Live(L, cs, j, b) && Live(L, cs[j := cs[j][1..]], j, b))
  {
    InvReadable(L, h, cs);
    var j := FirstAvailable(h.heads, k);
    if j < |L| {
      assert PoolIntact(L, h, cs, j);
      ChainPop(h.mem, L[j], h.heads[j], cs[j]);
      var h', cs' := Take(h, k).0, cs[j := cs[j][1..]];
      forall i | 0 <= i < |L|
        ensures PoolIntact(L, h', cs', i)
      {
        assert PoolIntact(L, h, cs, i);
      }
    }
  }

  /** The header of a block in use leads back to its own pool. */
  lemma {:induction false} HeaderLeadsHome(L: seq<Pool>, h: Heap, cs: seq<seq<nat>>, k: nat, b: nat)
    requires HeapInv(L, h, cs) && Live(L, cs, k, b)
    ensures b != 0 && Returnable(h, b) && ReadHeader(h.mem, b) == k
  {
    assert PoolIntact(L, h, cs, k);
    NextIsBlock(L[k], b);
  }

  /** `free` puts the block in front of the freelist it came from. */
  lemma {:induction false} GiveBackRefines(L: seq<Pool>, h: Heap, cs: seq<seq<nat>>, k: nat, b: nat)
    requires HeapInv(L, h, cs) && Live(L, cs, k, b)
    ensures Returnable(h, b)
    ensures HeapInv(L, GiveBack(h, b), cs[k := [b] + cs[k]])
  {
    HeaderLeadsHome(L, h, cs, k, b);
    var h', cs' := GiveBack(h, b), cs[k := [b] + cs[k]];
    assert PoolIntact(L, h, cs, k);
    ChainHeadRange(h.mem, L[k], h.heads[k], cs[k]);
    LinkTouches(h.mem, L[k], k, b, h.heads[k]);
    forall j | 0 <= j < |L|
      ensures PoolIntact(L, h', cs', j)
    {
      TouchKeepsPool(L, h, cs, h'.mem, k, b, j);
      if j == k { ChainPush(h.mem, L[k], h.heads[k], cs[k], b); }
    }
  }

  /** Whatever an owner writes into its payload leaves the heap intact. */
  lemma {:induction false} WriteRefines(L: seq<Pool>, h: Heap, cs: seq<seq<nat>>, k: nat, b: nat, offset: nat, data: seq<Byte>)
    requires HeapInv(L, h, cs) && Live(L, cs, k, b) && offset + |data| + HEADER_BYTES <= L[k].stride
    ensures b + offset + |data| <= |h.mem|
    ensures HeapInv(L, Write(h, b, offset, data), cs)
  {
    assert PoolIntact(L, h, cs, k);
    PayloadTouches(h.mem, L[k], b, offset, data);
    TouchKeepsHeap(L, h, cs, Write(h, b, offset, data).mem, k, b);
  }

  /** The headers of pool `k` stand; if it is among the first `n`, it is entirely free in
      address order. */
  ghost predicate PoolReset(L: seq<Pool>, h: Heap, n: nat, k: nat)
    requires k < |L| == |h.heads|
  {
    && HeadersAre(h.mem, L[k], k)
    && (k < n ==> FreeChain(h.mem, L[k], h.heads[k], AddressOrder(L[k])))
  }

  ghost predicate PartlyReset(L: seq<Pool>, h: Heap, n: nat) {
    && n <= |L| == |h.heads| && ValidLayout(L, |h.mem|)
    && forall k | 0 <= k < |L| :: PoolReset(L, h, n, k)
  }

  lemma {:induction false} ChainOutside(m: seq<Byte>, m': seq<Byte>, p: Pool, q: Pool, index: nat, head: nat, c: seq<nat>)
    requires p.Fits(|m|) && q.Fits(|m|) && Apart(p, q) && SameOutside(m, m', p.base, p.End())
    ensures HeadersAre(m, q, index) ==> HeadersAre(m', q, index)
    ensures FreeChain(m, q, head, c) ==> FreeChain(m', q, head, c)
  {
    forall b: nat | q.IsBlock(b)
      ensures b + LINK_BYTES <= |m| && ReadHeader(m', b) == ReadHeader(m, b) && ReadLink(m', b) == ReadLink(m, b)
    {
      NextIsBlock(q, b);
      IntervalKept(m, m', p.base, p.End(), b - 2, b + q.stride);
      SameLink(m, m', b);
    }
    if FreeChain(m, q, head, c) {
      forall j | 0 <= j < |c|
        ensures LinkIs(m', q, c[j], Follower(c, j))
      {
        assert LinkIs(m, q, c[j], Follower(c, j));
      }
    }
  }

  /** Resetting pool `n` leaves any other pool as it was. */
  lemma {:induction false} ResetOther(L: seq<Pool>, g: Heap, h': Heap, n: nat, k: nat)
    requires PartlyReset(L, g, n) && n < |L| && k < |L| && k != n
    requires h' == ResetOne(L, g, n)
    ensures PoolReset(L, h', n + 1, k)
  {
    assert PoolReset(L, g, n, n) && PoolReset(L, g, n, k);
    ResetSound(g.mem, L[n], n);
    PoolsApart(L, |g.mem|, n, k);
    ChainOutside(g.mem, h'.mem, L[n], L[k], k, g.heads[k], AddressOrder(L[k]));
  }

  lemma {:induction false} ResetStep(L: seq<Pool>, g: Heap, h': Heap, n: nat)
    requires PartlyReset(L, g, n) && n < |L|
    requires h' == ResetOne(L, g, n)
    ensures PartlyReset(L, h', n + 1)
  {
    var next := n + 1;
    forall k | 0 <= k < |L|
      ensures PoolReset(L, h', next, k)
    {
      if k == n {
        assert PoolReset(L, g, n, n);
        ResetSound(g.mem, L[n], n);
      } else {
        ResetOther(L, g, h', n, k);
      }
    }
  }

  lemma {:induction false} ResetAllUnfolds(L: seq<Pool>, h: Heap, g: Heap, h': Heap, n: nat)
    requires 0 < n <= |L| == |h.heads| && ValidLayout(L, |h.mem|)
    requires g == ResetAll(L, h, n - 1) && h' == ResetAll(L, h, n)
    ensures |g.mem| == |h.mem| && |g.heads| == |h.heads| && h' == ResetOne(L, g, n - 1)
  {}

  lemma {:induction false} ResetAllProgress(L: seq<Pool>, h: Heap, h': Heap, n: nat)
    requires PartlyReset(L, h, 0) && n <= |L| && h' == ResetAll(L, h, n)
    ensures PartlyReset(L, h', n)
    decreases n
  {
    if n > 0 {
      var g := ResetAll(L, h, n - 1);
      ResetAllProgress(L, h, g, n - 1);
      ResetAllUnfolds(L, h, g, h', n);
      ResetStep(L, g, h', n - 1);
    }
  }

  /** `reset`, whatever blocks are in use, puts the allocator back into the state it was
      built in: every freelist holds all its blocks in address order. */
  lemma {:induction false} ResetRefines(L: seq<Pool>, h: Heap, cs: seq<seq<nat>>)
    requires HeapInv(L, h, cs)
    ensures HeapInv(L, ResetAll(L, h, |L|), AllFree(L))
  {
    forall k | 0 <= k < |L|
      ensures PoolReset(L, h, 0, k)
    {
      assert PoolIntact(L, h, cs, k);
    }
    var h' := ResetAll(L, h, |L|);
    ResetAllProgress(L, h, h', |L|);
    forall k | 0 <= k < |L|
      ensures PoolIntact(L, h', AllFree(L), k)
    {
      assert PoolReset(L, h', |L|, k);
    }
  }

  // ---------------------------------------------------------------- runs

  datatype Op =
    | Allocate(first: nat)
    | Free(pool: nat, block: nat)
    | FreeNull
    | WriteInto(pool: nat, block: nat, offset: nat, data: seq<Byte>)
    | Reset

  /** What callers may do: give back or write into only what they hold. `pool` merely
      names the block's pool for the statement; the code finds it in the header. */
  ghost predicate Legal(L: seq<Pool>, cs: seq<seq<nat>>, op: Op) {
    match op
    case Allocate(k) => k <= |L|
    case Free(k, b) => Live(L, cs, k, b)
    case FreeNull => true
    case WriteInto(k, b, offset, data) => Live(L, cs, k, b) && offset + |data| + HEADER_BYTES <= L[k].stride
    case Reset => true
  }

  /** Spelled out: anybody may allocate, reset and free null; whoever holds a block may free
      it and write into the bytes in front of the next header. */
  lemma {:induction false} CallersMay(L: seq<Pool>, cs: seq<seq<nat>>, k: nat, b: nat, offset: nat, data: seq<Byte>)
    requires k < |L| == |cs| && L[k].stride > 0
    ensures Legal(L, cs, Allocate(k)) && Legal(L, cs, Reset) && Legal(L, cs, FreeNull)
    ensures Legal(L, cs, Free(k, b)) <==> L[k].IsBlock(b) && b !in cs[k]
    ensures Legal(L, cs, WriteInto(k, b, offset, data)) <==>
            L[k].IsBlock(b) && b !in cs[k] && offset + |data| + 2 <= L[k].stride
  {}

  ghost function Chains(L: seq<Pool>, h: Heap, cs: seq<seq<nat>>, op: Op): seq<seq<nat>>
    requires HeapInv(L, h, cs) && Legal(L, cs, op)
  {
    match op
    case Allocate(k) =>
      TakeRefines(L, h, cs, k);
      var j := FirstAvailable(h.heads, k);
      if j == |L| then cs else cs[j := cs[j][1..]]
    case Free(k, b) => cs[k := [b] + cs[k]]
    case Reset => AllFree(L)
    case _ => cs
  }

  ghost function Apply(L: seq<Pool>, h: Heap, cs: seq<seq<nat>>, op: Op): Heap
    requires HeapInv(L, h, cs) && Legal(L, cs, op)
  {
    match op
    case Allocate(k) => InvReadable(L, h, cs); Take(h, k).0
    case Free(k, b) => HeaderLeadsHome(L, h, cs, k, b); GiveBack(h, b)
    case FreeNull => GiveBack(h, 0)
    case WriteInto(k, b, offset, data) => WriteRefines(L, h, cs, k, b, offset, data); Write(h, b, offset, data)
    case Reset => ResetAll(L, h, |L|)
  }

  /** One operation, whichever it is, keeps the heap intact. */
  lemma {:induction false} StepKeepsHeap(L: seq<Pool>, h: Heap, cs: seq<seq<nat>>, op: Op)
    requires HeapInv(L, h, cs) && Legal(L, cs, op)
    ensures HeapInv(L, Apply(L, h, cs, op), Chains(L, h, cs, op))
  {
    match op
    case Allocate(k) => TakeRefines(L, h, cs, k);
    case Free(k, b) => GiveBackRefines(L, h, cs, k, b);
    case WriteInto(k, b, offset, data) => WriteRefines(L, h, cs, k, b, offset, data);
    case Reset => ResetRefines(L, h, cs);
    case FreeNull =>
  }

  ghost predicate LegalRun(L: seq<Pool>, h: Heap, cs: seq<seq<nat>>, ops: seq<Op>)
    requires HeapInv(L, h, cs)
    decreases |ops|
  {
    ops != [] ==>
      && Legal(L, cs, ops[0])
      && (StepKeepsHeap(L, h, cs, ops[0]);
          LegalRun(L, Apply(L, h, cs, ops[0]), Chains(L, h, cs, ops[0]), ops[1..]))
  }

  /** Heap and free sequences after a run. */
  ghost function RunAll(L: seq<Pool>, h: Heap, cs: seq<seq<nat>>, ops: seq<Op>): (Heap, seq<seq<nat>>)
    requires HeapInv(L, h, cs) && LegalRun(L, h, cs, ops)
    decreases |ops|
  {
    if ops == [] then (h, cs)
    else
      StepKeepsHeap(L, h, cs, ops[0]);
      RunAll(L, Apply(L, h, cs, ops[0]), Chains(L, h, cs, ops[0]), ops[1..])
  }

  /** Main theorem. After any run of allocations, frees, writes by the owners into their
      payloads and resets, every header still names its pool and every freelist is an
      acyclic, null-terminated chain through exactly the free blocks of its pool. */
  lemma {:induction false} RunKeepsHeap(L: seq<Pool>, h: Heap, cs: seq<seq<nat>>, ops: seq<Op>)
    requires HeapInv(L, h, cs) && LegalRun(L, h, cs, ops)
    ensures HeapInv(L, RunAll(L, h, cs, ops).0, RunAll(L, h, cs, ops).1)
    decreases |ops|
  {
    if ops != [] {
      StepKeepsHeap(L, h, cs, ops[0]);
      RunKeepsHeap(L, Apply(L, h, cs, ops[0]), Chains(L, h, cs, ops[0]), ops[1..]);
    }
  }

  // ---------------------------------------------------------------- no block is lost

  /** The indices of the blocks of `p` that are not in the free sequence `c`. */
  function InUse(p: Pool, c: seq<nat>): set<nat>
    requires p.stride > 0
  {
    set i | 0 <= i < p.count && p.Block(i) !in c
  }

  lemma {:induction false} BlockIndexUnique(p: Pool, i: nat, j: nat)
    requires p.stride > 0 && i < p.count && j < p.count && p.Block(i) == p.Block(j)
    ensures i == j
  {
    if i < j { BlocksOrdered(p, i, j); }
    if j < i { BlocksOrdered(p, j, i); }
  }

  lemma {:induction false} OneMoreFree(p: Pool, c: seq<nat>, i: nat)
    requires p.stride > 0 && c != [] && c[0] !in c[1..] && i < p.count && p.Block(i) == c[0]
    ensures InUse(p, c[1..]) == InUse(p, c) + {i} && i !in InUse(p, c)
  {
    forall j: nat | j < p.count
      ensures p.Block(j) in c <==> j == i || p.Block(j) in c[1..]
    {
      if p.Block(j) == c[0] { BlockIndexUnique(p, i, j); }
    }
  }

  lemma {:induction false} UsedAndFree(p: Pool, c: seq<nat>)
    requires p.stride > 0 && Distinct(c) && forall j | 0 <= j < |c| :: p.IsBlock(c[j])
    ensures |c| + |InUse(p, c)| == p.count
  {
    if c == [] {
      assert InUse(p, c) == Below(p.count);
    } else {
      UsedAndFree(p, c[1..]);
      var i := BlockIndex(p, c[0]);
      OneMoreFree(p, c, i);
    }
  }

  /** The blocks in use are those not free, and together they are all `count` blocks of
      the pool: none is lost, none is both. */
  lemma {:induction false} BlocksConserved(L: seq<Pool>, h: Heap, cs: seq<seq<nat>>, k: nat)
    requires HeapInv(L, h, cs) && k < |L|
    ensures |cs[k]| + |InUse(L[k], cs[k])| == L[k].count
    ensures forall i | 0 <= i < L[k].count :: i in InUse(L[k], cs[k]) <==> Live(L, cs, k, L[k].Block(i))
  {
    assert PoolIntact(L, h, cs, k);
    UsedAndFree(L[k], cs[k]);
    forall i | 0 <= i < L[k].count
      ensures L[k].IsBlock(L[k].Block(i))
    {
      BlockInPool(L[k], i);
    }
  }

  // ---------------------------------------------------------------- ownership

  /** Distinct blocks, of one pool or of two, occupy disjoint storage. */
  lemma {:induction false} BlocksDisjoint(L: seq<Pool>, size: nat, j: nat, a: nat, k: nat, b: nat)
    requires ValidLayout(L, size) && j < |L| && k < |L| && L[j].IsBlock(a) && L[k].IsBlock(b)
    requires j != k || a != b
    ensures a + L[j].stride <= b || b + L[k].stride <= a
  {
    if j == k {
      BlocksApart(L[j], a, b);
    } else {
      NextIsBlock(L[j], a);
      NextIsBlock(L[k], b);
      PoolsApart(L, size, j, k);
    }
  }

  /** The payload of a block in use overlaps no other payload, no header, and no link
      of a free block. */
  lemma {:induction false} PayloadsDisjoint(L: seq<Pool>, h: Heap, cs: seq<seq<nat>>, j: nat, a: nat, k: nat, b: nat)
    requires HeapInv(L, h, cs) && Live(L, cs, j, a) && k < |L| && L[k].IsBlock(b)
    ensures (j != k || a != b) ==>
              a + L[j].stride - HEADER_BYTES <= b || b + L[k].stride - HEADER_BYTES <= a
    ensures b <= a || a + L[j].stride - HEADER_BYTES <= b - HEADER_BYTES
    ensures b in cs[k] ==> b + LINK_BYTES <= a || a + L[j].stride - HEADER_BYTES <= b
  {
    if j != k || a != b { BlocksDisjoint(L, |h.mem|, j, a, k, b); }
  }

  /** Operations that are not `b`'s owner's doing. */
  predicate SparesBlock(op: Op, b: nat) {
    !op.Reset? && (op.Free? || op.WriteInto? ==> op.block != b)
  }

  ghost predicate SamePayload(h: Heap, h': Heap, p: Pool, b: nat) {
    && b + p.stride <= |h.mem| == |h'.mem|
    && forall i | b <= i < b + p.stride - HEADER_BYTES :: h'.mem[i] == h.mem[i]
  }

  lemma {:induction false} TouchSparesOthers(L: seq<Pool>, h: Heap, cs: seq<seq<nat>>, m': seq<Byte>, k: nat, a: nat, j: nat, b: nat)
    requires HeapInv(L, h, cs) && k < |L| && Touches(h.mem, m', L[k], a)
    requires Live(L, cs, j, b) && a != b
    ensures SamePayload(h, h.(mem := m'), L[j], b)
  {
    if j != k { PoolsApart(L, |h.mem|, k, j); }
    assert PoolIntact(L, h, cs, j);
    OtherBlockKept(h.mem, m', L[k], a, L[j], b);
  }

  lemma {:induction false} FreeSparesOwner(L: seq<Pool>, h: Heap, cs: seq<seq<nat>>, k: nat, a: nat, j: nat, b: nat)
    requires HeapInv(L, h, cs) && Live(L, cs, k, a) && Live(L, cs, j, b) && a != b
    ensures Returnable(h, a) && SamePayload(h, GiveBack(h, a), L[j], b)
  {
    assert PoolIntact(L, h, cs, k);
    HeaderLeadsHome(L, h, cs, k, a);
    ChainHeadRange(h.mem, L[k], h.heads[k], cs[k]);
    LinkTouches(h.mem, L[k], k, a, h.heads[k]);
    TouchSparesOthers(L, h, cs, GiveBack(h, a).mem, k, a, j, b);
  }

  lemma {:induction false} WriteSparesOwner(L: seq<Pool>, h: Heap, cs: seq<seq<nat>>, k: nat, a: nat, offset: nat, data: seq<Byte>, j: nat, b: nat)
    requires HeapInv(L, h, cs) && Live(L, cs, k, a) && offset + |data| + HEADER_BYTES <= L[k].stride
    requires Live(L, cs, j, b) && a != b
    ensures a + offset + |data| <= |h.mem|
    ensures SamePayload(h, Write(h, a, offset, data), L[j], b)
  {
    assert PoolIntact(L, h, cs, k);
    PayloadTouches(h.mem, L[k], a, offset, data);
    TouchSparesOthers(L, h, cs, Store(h.mem, a + offset, data), k, a, j, b);
  }

  lemma {:induction false} SameMemory(L: seq<Pool>, h: Heap, cs: seq<seq<nat>>, h': Heap, j: nat, b: nat)
    requires HeapInv(L, h, cs) && Live(L, cs, j, b) && h'.mem == h.mem
    ensures SamePayload(h, h', L[j], b)
  {
    assert PoolIntact(L, h, cs, j);
    NextIsBlock(L[j], b);
  }

  /** No operation of anybody else changes a byte of a block in use, nor hands it out
      again. */
  lemma {:induction false} StepSparesOwner(L: seq<Pool>, h: Heap, cs: seq<seq<nat>>, op: Op, j: nat, b: nat)
    requires HeapInv(L, h, cs) && Legal(L, cs, op) && Live(L, cs, j, b) && SparesBlock(op, b)
    ensures Live(L, Chains(L, h, cs, op), j, b)
    ensures SamePayload(h, Apply(L, h, cs, op), L[j], b)
  {
    match op
    case Allocate(k) =>
      TakeRefines(L, h, cs, k);
      SameMemory(L, h, cs, Apply(L, h, cs, op), j, b);
    case Free(k, a) => FreeSparesOwner(L, h, cs, k, a, j, b);
    case WriteInto(k, a, offset, data) => WriteSparesOwner(L, h, cs, k, a, offset, data, j, b);
    case _ => SameMemory(L, h, cs, h, j, b);
  }

  /** Main theorem. A block in use keeps its contents and stays in use through any run
      in which its owner neither writes to it nor frees it and nobody resets. */
  lemma {:induction false} RunSparesOwner(L: seq<Pool>, h: Heap, cs: seq<seq<nat>>, ops: seq<Op>, j: nat, b: nat)
    requires HeapInv(L, h, cs) && LegalRun(L, h, cs, ops) && Live(L, cs, j, b)
    requires forall i | 0 <= i < |ops| ::
               !ops[i].Reset? && (ops[i].Free? ==> ops[i].block != b) && (ops[i].WriteInto? ==> ops[i].block != b)
    ensures Live(L, RunAll(L, h, cs, ops).1, j, b)
    ensures SamePayload(h, RunAll(L, h, cs, ops).0, L[j], b)
    decreases |ops|
  {
    if ops == [] {
      assert PoolIntact(L, h, cs, j);
      NextIsBlock(L[j], b);
    } else {
      StepKeepsHeap(L, h, cs, ops[0]);
      StepSparesOwner(L, h, cs, ops[0], j, b);
      RunSparesOwner(L, Apply(L, h, cs, ops[0]), Chains(L, h, cs, ops[0]), ops[1..], j, b);
    }
  }

  // ---------------------------------------------------------------- free undoes alloc

  lemma {:induction false} WritesKeepChains(L: seq<Pool>, h: Heap, cs: seq<seq<nat>>, ops: seq<Op>)
    requires HeapInv(L, h, cs) && LegalRun(L, h, cs, ops)
    requires forall i | 0 <= i < |ops| :: ops[i].WriteInto?
    ensures RunAll(L, h, cs, ops).1 == cs
    decreases |ops|
  {
    if ops != [] {
      StepKeepsHeap(L, h, cs, ops[0]);
      WritesKeepChains(L, Apply(L, h, cs, ops[0]), Chains(L, h, cs, ops[0]), ops[1..]);
    }
  }

  /** Main theorem. Take a block (by fallback or not), let the owners write what they
      like into their payloads, give the block back: every freelist is again exactly
      the sequence of blocks it was before. */
  lemma {:induction false} FreeUndoesAlloc(L: seq<Pool>, h: Heap, cs: seq<seq<nat>>, k: nat, writes: seq<Op>, b: nat)
    requires HeapInv(L, h, cs) && LegalRun(L, h, cs, [Allocate(k)] + writes)
    requires forall i | 0 <= i < |writes| :: writes[i].WriteInto?
    requires HeadsReadable(h) && b == Take(h, k).1 != 0
    ensures var h2 := RunAll(L, h, cs, [Allocate(k)] + writes).0;
            && Returnable(h2, b) && ReadHeader(h2.mem, b) == FirstAvailable(h.heads, k)
            && HeapInv(L, GiveBack(h2, b), cs)
  {
    var ops, j := [Allocate(k)] + writes, FirstAvailable(h.heads, k);
    assert ops[1..] == writes;
    TakeRefines(L, h, cs, k);
    var h1, cs1 := Apply(L, h, cs, ops[0]), Chains(L, h, cs, ops[0]);
    WritesKeepChains(L, h1, cs1, writes);
    RunKeepsHeap(L, h1, cs1, writes);
    TakenComesBack(L, RunAll(L, h1, cs1, writes).0, cs, cs1, j, b);
  }

  lemma {:induction false} RunTail(L: seq<Pool>, h: Heap, cs: seq<seq<nat>>, ops: seq<Op>) returns (h': Heap, cs': seq<seq<nat>>)
    requires HeapInv(L, h, cs) && LegalRun(L, h, cs, ops) && ops != []
    ensures Legal(L, cs, ops[0]) && h' == Apply(L, h, cs, ops[0]) && cs' == Chains(L, h, cs, ops[0])
    ensures HeapInv(L, h', cs') && LegalRun(L, h', cs', ops[1..])
    ensures RunAll(L, h, cs, ops) == RunAll(L, h', cs', ops[1..])
  {
    StepKeepsHeap(L, h, cs, ops[0]);
    h', cs' := Apply(L, h, cs, ops[0]), Chains(L, h, cs, ops[0]);
  }

  lemma {:induction false} OperationFirst(L: seq<Pool>, h: Heap, cs: seq<seq<nat>>, op: Op, ops: seq<Op>, h': Heap, cs': seq<seq<nat>>)
    requires HeapInv(L, h, cs) && Legal(L, cs, op) && h' == Apply(L, h, cs, op) && cs' == Chains(L, h, cs, op)
    requires HeapInv(L, h', cs') && LegalRun(L, h', cs', ops)
    ensures LegalRun(L, h, cs, [op] + ops) && RunAll(L, h, cs, [op] + ops) == RunAll(L, h', cs', ops)
  {
    assert ([op] + ops)[1..] == ops;
  }

  lemma {:induction false} OneOperation(L: seq<Pool>, h: Heap, cs: seq<seq<nat>>, op: Op)
    requires HeapInv(L, h, cs) && Legal(L, cs, op)
    ensures LegalRun(L, h, cs, [op]) && RunAll(L, h, cs, [op]) == (Apply(L, h, cs, op), Chains(L, h, cs, op))
  {
    StepKeepsHeap(L, h, cs, op);
    OperationFirst(L, h, cs, op, [], Apply(L, h, cs, op), Chains(L, h, cs, op));
    assert [op] + [] == [op];
  }

  /** Writes by owners, then a free. */
  lemma {:induction false} WritesThenFree(L: seq<Pool>, h: Heap, cs: seq<seq<nat>>, writes: seq<Op>, j: nat, b: nat)
    requires HeapInv(L, h, cs) && LegalRun(L, h, cs, writes) && Live(L, cs, j, b)
    requires forall i | 0 <= i < |writes| :: writes[i].WriteInto?
    ensures LegalRun(L, h, cs, writes + [Free(j, b)])
    ensures RunAll(L, h, cs, writes + [Free(j, b)]).1 == cs[j := [b] + cs[j]]
    decreases |writes|
  {
    if writes == [] {
      OneOperation(L, h, cs, Free(j, b));
      assert writes + [Free(j, b)] == [Free(j, b)];
    } else {
      var h', cs' := RunTail(L, h, cs, writes);
      WritesThenFree(L, h', cs', writes[1..], j, b);
      OperationFirst(L, h, cs, writes[0], writes[1..] + [Free(j, b)], h', cs');
      assert writes + [Free(j, b)] == [writes[0]] + (writes[1..] + [Free(j, b)]);
    }
  }

  /** The same as a run: allocating, writing and freeing is legal and leaves every free
      sequence as it was. */
  lemma {:induction false} RoundTrip(L: seq<Pool>, h: Heap, cs: seq<seq<nat>>, k: nat, writes: seq<Op>, b: nat)
    requires HeapInv(L, h, cs) && LegalRun(L, h, cs, [Allocate(k)] + writes)
    requires forall i | 0 <= i < |writes| :: writes[i].WriteInto?
    requires HeadsReadable(h) && b == Take(h, k).1 != 0
    ensures var ops := [Allocate(k)] + (writes + [Free(FirstAvailable(h.heads, k), b)]);
            LegalRun(L, h, cs, ops) && RunAll(L, h, cs, ops).1 == cs
  {
    var ops, j := [Allocate(k)] + writes, FirstAvailable(h.heads, k);
    assert ops[0] == Allocate(k) && ops[1..] == writes;
    var h1, cs1 := RunTail(L, h, cs, ops);
    TakeRefines(L, h, cs, k);
    WritesThenFree(L, h1, cs1, writes, j, b);
    OperationFirst(L, h, cs, Allocate(k), writes + [Free(j, b)], h1, cs1);
    assert [b] + cs1[j] == cs[j];
    assert cs1[j := [b] + cs1[j]] == cs;
  }

  /** Main theorem. What an owner writes into its block it reads back after any run in which
      it neither writes there nor frees it and nobody resets. */
  lemma {:induction false} WrittenIsRead(L: seq<Pool>, h: Heap, cs: seq<seq<nat>>, j: nat, b: nat, offset: nat, data: seq<Byte>, ops: seq<Op>)
    requires HeapInv(L, h, cs) && LegalRun(L, h, cs, [WriteInto(j, b, offset, data)] + ops)
    requires forall i | 0 <= i < |ops| ::
               !ops[i].Reset? && (ops[i].Free? ==> ops[i].block != b) && (ops[i].WriteInto? ==> ops[i].block != b)
    ensures var h' := RunAll(L, h, cs, [WriteInto(j, b, offset, data)] + ops).0;
            b + offset + |data| <= |h'.mem| && h'.mem[b + offset..b + offset + |data|] == data
  {
    var all := [WriteInto(j, b, offset, data)] + ops;
    assert all[0] == WriteInto(j, b, offset, data) && all[1..] == ops;
    var h1, cs1 := RunTail(L, h, cs, all);
    WriteRefines(L, h, cs, j, b, offset, data);
    assert h1 == Write(h, b, offset, data);
    RunSparesOwner(L, h1, cs1, ops, j, b);
  }

  lemma {:induction false} TakenComesBack(L: seq<Pool>, h: Heap, cs: seq<seq<nat>>, cs1: seq<seq<nat>>, j: nat, b: nat)
    requires j < |cs| && cs[j] != [] && cs[j][0] == b && cs1 == cs[j := cs[j][1..]]
    requires HeapInv(L, h, cs1) && Live(L, cs1, j, b)
    ensures Returnable(h, b) && ReadHeader(h.mem, b) == j
    ensures HeapInv(L, GiveBack(h, b), cs)
  {
    HeaderLeadsHome(L, h, cs1, j, b);
    GiveBackRefines(L, h, cs1, j, b);
    assert [b] + cs1[j] == cs[j];
    assert cs1[j := [b] + cs1[j]] == cs;
  }
}
