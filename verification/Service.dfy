/** Which blocks a request can be given at all. Fallback makes every block of every pool
    from the first choice on reachable, so what holds of all served blocks is decided by
    the table alone. */
module Service {
  import opened Bits
  import opened Memory
  import opened Pools
  import opened Heaps
  import opened HeapRuns
  import opened Lookup
  import opened Alignment
  import opened StrideRanges
  import opened Build
  import opened Guarantees
  import opened Permutations

  // ---------------------------------------------------------------- reachable blocks

  /** After the legal run `ops` from an allocator with all blocks free, a request looked up
      at `k` is given block `b` of pool `j`. */
  ghost predicate Serves(L: seq<Pool>, h: Heap, ops: seq<Op>, k: nat, j: nat, b: nat) {
    && HeapInv(L, h, AllFree(L)) && LegalRun(L, h, AllFree(L), ops)
    && GivenNow(L, RunAll(L, h, AllFree(L), ops).0, k, j, b)
  }

  ghost predicate GivenNow(L: seq<Pool>, h: Heap, k: nat, j: nat, b: nat) {
    && k <= |L| == |h.heads| && HeadsReadable(h)
    && b != 0 && Take(h, k).1 == b && FirstAvailable(h.heads, k) == j
  }

  /** What is served is a block of a pool at or above the first choice. */
  lemma {:induction false} ServedIsBlock(L: seq<Pool>, h: Heap, ops: seq<Op>, k: nat, j: nat, b: nat)
    requires Serves(L, h, ops, k, j, b)
    ensures k <= j < |L| && L[j].Fits(|h.mem|) && L[j].IsBlock(b)
  {
    var (h', cs') := RunAll(L, h, AllFree(L), ops);
    RunKeepsHeap(L, h, AllFree(L), ops);
    TakeRefines(L, h', cs', k);
    assert PoolIntact(L, h', cs', j);
  }

  /** Allocating over and over from first choice `k` reaches the `i`-th free block of pool
      `j`; `f` is the pool that serves next. */
  lemma {:induction false} Drain(L: seq<Pool>, h: Heap, cs: seq<seq<nat>>, k: nat, j: nat, i: nat, f: nat) returns (ops: seq<Op>)
    requires HeapInv(L, h, cs) && k <= j < |L| && i < |cs[j]| && f == FirstAvailable(h.heads, k)
    ensures LegalRun(L, h, cs, ops) && forall n | 0 <= n < |ops| :: ops[n] == Allocate(k)
    ensures GivenNow(L, RunAll(L, h, cs, ops).0, k, j, cs[j][i])
    decreases j - f, if f < |cs| then |cs[f]| else 0
  {
    TakeRefines(L, h, cs, k);
    ServingPool(L, h, cs, k, j, f);
    if f == j && i == 0 {
      ops := [];
    } else {
      var op := Allocate(k);
      var h', cs' := Apply(L, h, cs, op), Chains(L, h, cs, op);
      StepKeepsHeap(L, h, cs, op);
      var i' := if f == j then i - 1 else i;
      assert cs'[j][i'] == cs[j][i];
      var f' := FirstAvailable(h'.heads, k);
      ServingMovesOn(L, h', cs', k, j, f, f');
      var rest := Drain(L, h', cs', k, j, i', f');
      ops := [op] + rest;
      assert ops[1..] == rest;
    }
  }

  /** While pool `j` has a free block, allocation stops there at the latest. */
  lemma {:induction false} ServingPool(L: seq<Pool>, h: Heap, cs: seq<seq<nat>>, k: nat, j: nat, f: nat)
    requires HeapInv(L, h, cs) && k <= j < |L| && cs[j] != [] && f == FirstAvailable(h.heads, k)
    ensures HeadsReadable(h) && k <= f <= j && cs[f] != [] && Take(h, k).1 == cs[f][0] != 0
  {
    InvReadable(L, h, cs);
    TakeRefines(L, h, cs, k);
    assert PoolIntact(L, h, cs, f);
    ChainPop(h.mem, L[f], h.heads[f], cs[f]);
  }

  /** ... and the pool that serves never comes before one already empty. */
  lemma {:induction false} ServingMovesOn(L: seq<Pool>, h: Heap, cs: seq<seq<nat>>, k: nat, j: nat, f: nat, f': nat)
    requires HeapInv(L, h, cs) && k <= f <= j < |L| && cs[j] != [] && f' == FirstAvailable(h.heads, k)
    requires forall i | k <= i < f :: cs[i] == []
    ensures f <= f' <= j
    ensures cs[f] == [] ==> f < f'
  {
    ServingPool(L, h, cs, k, j, f');
  }

  /** From an allocator with all blocks free, some run of allocations makes any chosen
      block, of any pool at or above the first choice, the next to be served. */
  lemma {:induction false} EveryBlockServed(L: seq<Pool>, h: Heap, k: nat, j: nat, b: nat) returns (ops: seq<Op>)
    requires HeapInv(L, h, AllFree(L)) && k <= j < |L| && L[j].stride > 0 && L[j].IsBlock(b)
    ensures Serves(L, h, ops, k, j, b) && forall n | 0 <= n < |ops| :: ops[n] == Allocate(k)
  {
    var i := BlockIndex(L[j], b);
    assert AllFree(L)[j] == AddressOrder(L[j]);
    ops := Drain(L, h, AllFree(L), k, j, i, FirstAvailable(h.heads, k));
  }

  // ---------------------------------------------------------------- alignment

  /** An allocator over a valid table: pools on pages, all blocks free. */
  ghost predicate Fresh(ranges: seq<Range>, L: seq<Pool>, h: Heap) {
    && ValidTable(ranges, 0) && StepsFit(ranges) && |L| == |Flat(ranges)| <= MAX_STRIDE_COUNT
    && (forall k | 0 <= k < |L| :: L[k].stride == Flat(ranges)[k] && L[k].base % MAX_ALIGNMENT == 0)
    && HeapInv(L, h, AllFree(L))
  }

  /** A request that `lookup` handles without wrapping, and the index it finds. */
  ghost predicate Request(ranges: seq<Range>, size: nat, alignment: nat, k: nat) {
    && ValidAlignment(alignment) && SizeInRange(ranges, size, alignment)
    && StepsFit(ranges) && k == Scan(ranges, AlignedSize(size, alignment))
  }

  lemma {:induction false} RequestIsSearch(ranges: seq<Range>, size: nat, alignment: nat, k: nat)
    requires ValidTable(ranges, 0) && Request(ranges, size, alignment, k)
    ensures k == TableIndex(Flat(ranges), 0, Need(size, alignment))
  {
    LookupIsSearch(ranges, size, alignment);
  }

  /** Every block of every pool lies on the alignment quantum. */
  lemma {:induction false} OnQuantum(p: Pool, size: nat, b: nat)
    requires p.Fits(size) && p.base % MAX_ALIGNMENT == 0 && p.IsBlock(b)
    ensures b % ALIGNMENT_QUANTUM == 0
  {
    var i := BlockIndex(p, b);
    BlockAligned(p, ALIGNMENT_QUANTUM, i);
  }

  /** All blocks of the pools from `k` on are aligned to `a`. */
  predicate StridesHonour(L: seq<Pool>, k: nat, a: nat)
    requires a > 0
  {
    forall j | k <= j < |L| :: L[j].stride % a == 0 || L[j].count == 1
  }

  /** Every block a request looked up at `k` can be given is aligned to `a`. */
  ghost predicate ServedAlignedTo(L: seq<Pool>, h: Heap, k: nat, a: nat)
    requires a > 0
  {
    forall ops, j: nat, b: nat | Serves(L, h, ops, k, j, b) :: b % a == 0
  }

  lemma {:induction false} AlignedPools(L: seq<Pool>, h: Heap, k: nat, a: nat)
    requires HeapInv(L, h, AllFree(L)) && a > 0 && forall j | 0 <= j < |L| :: L[j].base % a == 0
    ensures ServedAlignedTo(L, h, k, a) <==> StridesHonour(L, k, a)
  {
    if StridesHonour(L, k, a) {
      forall ops, j: nat, b: nat | Serves(L, h, ops, k, j, b)
        ensures b % a == 0
      {
        ServedIsBlock(L, h, ops, k, j, b);
        PoolAlignedIff(L[j], a);
      }
    } else {
      var j :| k <= j < |L| && L[j].stride % a != 0 && L[j].count != 1;
      var ops, b := MisalignedRun(L, h, k, j, a);
      assert Serves(L, h, ops, k, j, b);
    }
  }

  /** A run of allocations after which a misaligned block is served. */
  lemma {:induction false} MisalignedRun(L: seq<Pool>, h: Heap, k: nat, j: nat, a: nat) returns (ops: seq<Op>, b: nat)
    requires HeapInv(L, h, AllFree(L)) && a > 0 && k <= j < |L| && L[j].base % a == 0
    requires L[j].stride % a != 0 && L[j].count != 1
    ensures Serves(L, h, ops, k, j, b) && b == L[j].base + L[j].stride && b % a != 0
  {
    assert L[j].Fits(|h.mem|);
    BlockInPool(L[j], 1);
    b := L[j].Block(1);
    assert L[j].Block(0) == L[j].base;
    if b % a == 0 { ModSum(b, L[j].base, a); }
    ops := EveryBlockServed(L, h, k, j, b);
  }

  lemma {:induction false} QuantumServed(ranges: seq<Range>, L: seq<Pool>, h: Heap, k: nat)
    requires Fresh(ranges, L, h)
    ensures ServedAlignedTo(L, h, k, ALIGNMENT_QUANTUM)
  {
    forall ops, j: nat, b: nat | Serves(L, h, ops, k, j, b)
      ensures b % ALIGNMENT_QUANTUM == 0
    {
      ServedIsBlock(L, h, ops, k, j, b);
      OnQuantum(L[j], |h.mem|, b);
    }
  }

  lemma {:induction false} PagesAligned(ranges: seq<Range>, L: seq<Pool>, h: Heap, a: nat, k: nat)
    requires Fresh(ranges, L, h) && IsPow2(a) && 0 < a <= MAX_ALIGNMENT
    ensures ServedAlignedTo(L, h, k, a) <==> StridesHonour(L, k, a)
  {
    forall j | 0 <= j < |L|
      ensures L[j].base % a == 0
    {
      PageAligned(L[j].base, a);
    }
    AlignedPools(L, h, k, a);
  }

  /** Main theorem on alignment. Every block that can be served to a request lies on the
      alignment quantum, and all of them have the alignment it asks for exactly when that
      alignment divides every stride of the table from the first choice on, pools of a
      single block excepted. */
  lemma {:induction false} AlignedIff(ranges: seq<Range>, L: seq<Pool>, h: Heap, size: nat, alignment: nat, k: nat)
    requires Fresh(ranges, L, h) && Request(ranges, size, alignment, k) && IsPow2(alignment)
    ensures forall ops, j: nat, b: nat | Serves(L, h, ops, k, j, b) :: b % 8 == 0
    ensures (forall ops, j: nat, b: nat | Serves(L, h, ops, k, j, b) :: b % alignment == 0)
            <==> (forall j | k <= j < |L| :: L[j].stride % alignment == 0 || L[j].count == 1)
  {
    QuantumServed(ranges, L, h, k);
    PagesAligned(ranges, L, h, alignment, k);
  }

  /** Seen from the request: a block of the first choice is aligned if no range had to
      clamp, any block is if the alignment divides every step. */
  lemma {:induction false} ServedAligned(ranges: seq<Range>, L: seq<Pool>, h: Heap, size: nat, alignment: nat, k: nat,
                                         ops: seq<Op>, j: nat, b: nat)
    requires Fresh(ranges, L, h) && Request(ranges, size, alignment, k) && Serves(L, h, ops, k, j, b)
    requires IsPow2(alignment) && forall r <- ranges :: r.strideStep > 0
    requires || (j == k && !Clamped(ranges, Need(size, alignment)))
             || (forall r <- ranges :: r.strideStep % alignment == 0)
    ensures b % alignment == 0
  {
    ServedIsBlock(L, h, ops, k, j, b);
    RequestIsSearch(ranges, size, alignment, k);
    NeedIsLeast(size, alignment);
    if forall r <- ranges :: r.strideStep % alignment == 0 {
      AllStridesAligned(ranges, 0, alignment, j);
    } else {
      FirstChoiceAligned(ranges, 0, Need(size, alignment), alignment);
    }
    PageAligned(L[j].base, alignment);
    var i := BlockIndex(L[j], b);
    BlockAligned(L[j], alignment, i);
  }

  // ---------------------------------------------------------------- size

  ghost predicate NeverDescends(flat: seq<nat>) {
    forall i, j | 0 <= i < j < |flat| :: flat[i] <= flat[j]
  }

  /** From the first choice of any request on, every stride holds payload and header. */
  ghost predicate FallbackHolds(flat: seq<nat>) {
    forall size: nat, alignment: nat, j | ValidAlignment(alignment) && FirstAtLeast(flat, Need(size, alignment)) <= j < |flat| ::
      size + HEADER_BYTES <= flat[j]
  }

  /** A request for all that a stride holds, down to the byte. */
  lemma {:induction false} FullStride(flat: seq<nat>, i: nat)
    requires i < |flat| && flat[i] >= 8 && flat[i] % 8 == 0
    ensures Need(flat[i] - HEADER_BYTES, ALIGNMENT_QUANTUM) == flat[i]
    ensures FirstAtLeast(flat, Need(flat[i] - HEADER_BYTES, ALIGNMENT_QUANTUM)) <= i
  {
    AlignUpSpec(flat[i], ALIGNMENT_QUANTUM);
    AlignUpLeast(flat[i], ALIGNMENT_QUANTUM, flat[i]);
  }

  lemma {:induction false} NeedHolds(size: nat, alignment: nat)
    ensures size + HEADER_BYTES <= Need(size, alignment)
  {
    AlignUpSpec(size + HEADER_BYTES, Max(ALIGNMENT_QUANTUM, alignment));
  }

  /** Fallback is safe in size, for all requests, exactly when the table never descends. */
  lemma {:induction false} FallbackHoldsIff(flat: seq<nat>)
    requires forall i | 0 <= i < |flat| :: flat[i] >= 8 && flat[i] % 8 == 0
    ensures FallbackHolds(flat) <==> NeverDescends(flat)
  {
    if NeverDescends(flat) {
      forall size: nat, alignment: nat, j | ValidAlignment(alignment) && FirstAtLeast(flat, Need(size, alignment)) <= j < |flat|
        ensures size + HEADER_BYTES <= flat[j]
      {
        NeedHolds(size, alignment);
        assert flat[FirstAtLeast(flat, Need(size, alignment))] <= flat[j];
      }
    }
    if FallbackHolds(flat) {
      forall i, j | 0 <= i < j < |flat|
        ensures flat[i] <= flat[j]
      {
        FullStride(flat, i);
      }
    }
  }

  lemma {:induction false} TableOnQuantum(ranges: seq<Range>, base: nat)
    requires ValidTable(ranges, base)
    ensures forall i | 0 <= i < |Flat(ranges)| :: Flat(ranges)[i] >= 8 && Flat(ranges)[i] % 8 == 0
    decreases |ranges|
  {
    if ranges != [] {
      var r := ranges[0];
      assert Pow2(3) == 8;
      Pow2Divides(8, r.strideStep);
      forall i | 0 <= i < r.strideCount
        ensures Strides(r)[i] >= 8 && Strides(r)[i] % 8 == 0
      {
        StridesAligned(r, 8, i);
      }
      TableOnQuantum(ranges[1..], base + r.strideCount);
    }
  }

  lemma {:induction false} DistinctAscends(flat: seq<nat>)
    requires Distinct(flat)
    ensures NeverDescends(flat) <==> Ascending(flat)
  {}

  /** The block of pool `j` has room for payload and next header. */
  predicate Holds(L: seq<Pool>, j: nat, size: nat) {
    j < |L| && size + HEADER_BYTES <= L[j].stride
  }

  /** Every block that can be served to any request is large enough for it. */
  ghost predicate ServedHolds(ranges: seq<Range>, L: seq<Pool>, h: Heap) {
    forall size: nat, alignment: nat, k: nat, ops, j: nat, b: nat |
      Request(ranges, size, alignment, k) && Serves(L, h, ops, k, j, b) :: Holds(L, j, size)
  }

  lemma {:induction false} ServedBlockHolds(ranges: seq<Range>, L: seq<Pool>, h: Heap, size: nat, alignment: nat, k: nat,
                                            ops: seq<Op>, j: nat, b: nat)
    requires Fresh(ranges, L, h) && NeverDescends(Flat(ranges))
    requires Request(ranges, size, alignment, k) && Serves(L, h, ops, k, j, b)
    ensures Holds(L, j, size)
  {
    var flat := Flat(ranges);
    RequestIsSearch(ranges, size, alignment, k);
    ServedIsBlock(L, h, ops, k, j, b);
    NeedHolds(size, alignment);
    assert k == FirstAtLeast(flat, Need(size, alignment)) && flat[k] <= flat[j];
  }

  /** Where stride `j` is below an earlier stride `i`, a request that fills `i` can be given
      a block of pool `j`. */
  lemma {:induction false} TooSmallRun(ranges: seq<Range>, L: seq<Pool>, h: Heap, i: nat, j: nat) returns (size: nat, k: nat, ops: seq<Op>, b: nat)
    requires Fresh(ranges, L, h) && i < j < |L| && Flat(ranges)[i] > Flat(ranges)[j]
    ensures size + HEADER_BYTES == Flat(ranges)[i] && Request(ranges, size, ALIGNMENT_QUANTUM, k) && k <= i
    ensures Serves(L, h, ops, k, j, b) && !Holds(L, j, size)
  {
    size, k := FillingRequest(ranges, i);
    BlockInPool(L[j], 0);
    b := L[j].Block(0);
    ops := EveryBlockServed(L, h, k, j, b);
  }

  lemma {:induction false} FillingRequest(ranges: seq<Range>, i: nat) returns (size: nat, k: nat)
    requires ValidTable(ranges, 0) && StepsFit(ranges) && i < |Flat(ranges)|
    ensures size + HEADER_BYTES == Flat(ranges)[i] && Request(ranges, size, ALIGNMENT_QUANTUM, k) && k <= i
  {
    TableOnQuantum(ranges, 0);
    FlatBound(ranges, 0, i);
    size := Flat(ranges)[i] - HEADER_BYTES;
    GigabyteInRange(ranges, size, ALIGNMENT_QUANTUM);
    FullStride(Flat(ranges), i);
    k := Scan(ranges, AlignedSize(size, ALIGNMENT_QUANTUM));
    RequestIsSearch(ranges, size, ALIGNMENT_QUANTUM, k);
  }

  /** Main theorem on size. Every block that can be served to any request is large enough
      for it exactly when the table never descends. */
  lemma {:induction false} ServedHoldsIff(ranges: seq<Range>, L: seq<Pool>, h: Heap)
    requires Fresh(ranges, L, h)
    ensures ServedHolds(ranges, L, h) <==> NeverDescends(Flat(ranges))
  {
    var flat := Flat(ranges);
    if NeverDescends(flat) {
      forall size: nat, alignment: nat, k: nat, ops, j: nat, b: nat |
        Request(ranges, size, alignment, k) && Serves(L, h, ops, k, j, b)
        ensures Holds(L, j, size)
      {
        ServedBlockHolds(ranges, L, h, size, alignment, k, ops, j, b);
      }
    } else {
      var i, j :| 0 <= i < j < |flat| && flat[i] > flat[j];
      var size, k, ops, b := TooSmallRun(ranges, L, h, i, j);
    }
  }

  /** Main theorem. A table that passes validation falls back safely - every block that can
      be served to any request is large enough - exactly when its ranges do not overlap. */
  lemma {:induction false} AcceptedFallsBackIff(ranges: seq<Range>, L: seq<Pool>, h: Heap)
    requires Fresh(ranges, L, h) && PassesValidation(ranges)
    ensures FallbackHolds(Flat(ranges)) <==> IntervalsDisjoint(ranges)
    ensures ServedHolds(ranges, L, h) <==> IntervalsDisjoint(ranges)
  {
    TableOnQuantum(ranges, 0);
    FallbackHoldsIff(Flat(ranges));
    AcceptedIffDistinct(ranges, 0);
    DistinctAscends(Flat(ranges));
    AscendingIffDisjoint(ranges, 0);
    ServedHoldsIff(ranges, L, h);
  }

  // ---------------------------------------------------------------- where the documentation errs

  /** Pools of given shapes, built in flat order over zeroed memory. */
  lemma {:induction false} BuiltHeap(ranges: seq<Range>, shapes: seq<Shape>) returns (L: seq<Pool>, h: Heap)
    requires ValidTable(ranges, 0) && SameStrides(shapes, Flat(ranges)) && |shapes| <= MAX_STRIDE_COUNT
    requires GoodShapes(shapes) && ArenaSize(shapes) <= ADDRESS_LIMIT
    requires forall k | 0 <= k < |shapes| :: Exact(shapes[k])
    ensures Fresh(ranges, L, h) && forall k | 0 <= k < |L| :: L[k].count == shapes[k].count
  {
    var mem: seq<Byte> := seq(ArenaSize(shapes), _ => 0);
    var order: seq<nat> := seq(|shapes|, i => i);
    var sites := TrailExists(shapes, mem, order, |order|);
    ExactSuffices(shapes, order);
    BuildSucceeds(shapes, mem, order, sites);
    L := LayoutOf(shapes, sites[|order|].bases);
    h := HeapOf(L, sites[|order|].mem);
    TableSteps(ranges, 0);
  }

  lemma {:induction false} SecondBlockOff(base: nat)
    requires base % MAX_ALIGNMENT == 0
    ensures (base + 72) % 64 == 8
  {
    assert Pow2(6) == 64;
    PageAligned(base, 64);
    ModSum(base, 64, 64);
  }

  /** Shapes small enough to be built anywhere. */
  predicate Small(s: Shape) {
    8 < s.stride <= 128 && s.stride % 8 == 0 && 1 <= s.count <= 2
  }

  lemma {:induction false} SmallSize(s: Shape)
    requires Small(s)
    ensures GoodShape(s) && Exact(s) && ReservedBytes(s) <= PAGE + 256
  {
    SizeIsProduct(s);
    assert s.count == 1 || s.count == 2;
  }

  lemma {:induction false} SmallTotal(shapes: seq<Shape>, costs: seq<nat>)
    requires costs == Costs(shapes) && forall i | 0 <= i < |shapes| :: Small(shapes[i])
    ensures Total(costs) <= |costs| * (PAGE + 256)
    decreases |shapes|
  {
    if shapes != [] {
      var n := |shapes| - 1;
      SmallSize(shapes[n]);
      assert costs[..n] == Costs(shapes[..n]);
      SmallTotal(shapes[..n], costs[..n]);
    }
  }

  /** Pools of small shapes with strides of 16 and more, all built. */
  lemma {:induction false} SmallHeap(ranges: seq<Range>, shapes: seq<Shape>) returns (L: seq<Pool>, h: Heap)
    requires ValidTable(ranges, 0) && SameStrides(shapes, Flat(ranges)) && |shapes| <= MAX_STRIDE_COUNT
    requires forall i | 0 <= i < |shapes| :: Small(shapes[i])
    ensures Fresh(ranges, L, h) && forall k | 0 <= k < |L| :: L[k].count == shapes[k].count
  {
    forall i | 0 <= i < |shapes|
      ensures GoodShape(shapes[i]) && Exact(shapes[i])
    {
      SmallSize(shapes[i]);
    }
    SmallTotal(shapes, Costs(shapes));
    L, h := BuiltHeap(ranges, shapes);
  }

  lemma {:induction false} Off64(ranges: seq<Range>, shapes: seq<Shape>, j: nat) returns (L: seq<Pool>, h: Heap, ops: seq<Op>, b: nat)
    requires ValidTable(ranges, 0) && SameStrides(shapes, Flat(ranges)) && j < |shapes| <= MAX_STRIDE_COUNT
    requires (forall i | 0 <= i < |shapes| :: Small(shapes[i])) && shapes[j] == Shape(72, 2)
    ensures Fresh(ranges, L, h) && Serves(L, h, ops, 0, j, b) && b % 64 == 8
  {
    L, h := SmallHeap(ranges, shapes);
    SecondBlockOff(L[j].base);
    assert Pow2(6) == 64;
    PageAligned(L[j].base, 64);
    ops, b := MisalignedRun(L, h, 0, j, 64);
  }

  lemma {:induction false} TenBytesAt64(ranges: seq<Range>)
    requires ValidTable(ranges, 0) && Flat(ranges) != [] && Flat(ranges)[0] >= 64
    ensures Request(ranges, 10, 64, 0)
  {
    assert Pow2(6) == 64;
    GigabyteInRange(ranges, 10, 64);
    TableSteps(ranges, 0);
    assert Need(10, 64) == 64;
    RequestIsSearch(ranges, 10, 64, Scan(ranges, AlignedSize(10, 64)));
  }

  lemma {:induction false} TableFrom72(low: nat)
    requires low == 64 || low == 72
    ensures var ranges := [Range(low, 72, 8, if low == 64 then 2 else 1, 3, 0)];
            ValidTable(ranges, 0) && Flat(ranges) == if low == 64 then [64, 72] else [72]
  {
    var r := Range(low, 72, 8, if low == 64 then 2 else 1, 3, 0);
    assert Pow2(3) == 8;
    TableOfOne(r);
    assert Strides(r) == if low == 64 then [64, 72] else [72];
  }

  /** Alignment does not survive fallback: with strides 64 and 72, requests for 10 bytes
      aligned to 64 are at some point given a block 8 bytes off. */
  lemma {:induction false} FallbackMisaligns() returns (L: seq<Pool>, h: Heap, ops: seq<Op>, b: nat)
    ensures var ranges := [Range(64, 72, 8, 2, 3, 0)];
            && Fresh(ranges, L, h) && Flat(ranges) == [64, 72] && Request(ranges, 10, 64, 0)
            && Serves(L, h, ops, 0, 1, b) && b % 64 == 8
  {
    var ranges := [Range(64, 72, 8, 2, 3, 0)];
    TableFrom72(64);
    TenBytesAt64(ranges);
    L, h, ops, b := Off64(ranges, [Shape(64, 1), Shape(72, 2)], 1);
  }

  /** Nor does it survive clamping: where the smallest stride is 72, the first choice
      itself gives such a block. */
  lemma {:induction false} ClampMisaligns() returns (L: seq<Pool>, h: Heap, ops: seq<Op>, b: nat)
    ensures var ranges := [Range(72, 72, 8, 1, 3, 0)];
            && Fresh(ranges, L, h) && Flat(ranges) == [72] && Request(ranges, 10, 64, 0)
            && Serves(L, h, ops, 0, 0, b) && b % 64 == 8
  {
    var ranges := [Range(72, 72, 8, 1, 3, 0)];
    TableFrom72(72);
    TenBytesAt64(ranges);
    L, h, ops, b := Off64(ranges, [Shape(72, 2)], 0);
  }

  lemma {:induction false} FlatOfTwo(r: Range, s: Range)
    ensures Flat([r, s]) == Strides(r) + Strides(s)
  {
    assert [r, s][1..] == [s] && [s][1..] == [];
    assert Flat([s]) == Strides(s) + [];
  }

  lemma {:induction false} Strides32To64(r: Range)
    requires r.strideMin == 32 && r.strideStep == 32 && r.strideCount == 2
    ensures Strides(r) == [32, 64]
  {}

  lemma {:induction false} Strides48(r: Range)
    requires r.strideMin == 48 && r.strideCount == 1
    ensures Strides(r) == [48]
  {}

  lemma {:induction false} InterleavedFlat()
    ensures Flat(INTERLEAVED) == [32, 64, 48]
  {
    var r, s := INTERLEAVED[0], INTERLEAVED[1];
    assert INTERLEAVED == [r, s];
    FlatOfTwo(r, s);
    Strides32To64(r);
    Strides48(s);
  }

  lemma {:induction false} TooSmallAt48(ranges: seq<Range>) returns (L: seq<Pool>, h: Heap, ops: seq<Op>, b: nat)
    requires ValidTable(ranges, 0) && Flat(ranges) == [32, 64, 48]
    ensures |L| == 3 && L[2].stride == 48 && Serves(L, h, ops, 1, 2, b)
    ensures Fresh(ranges, L, h) && Request(ranges, 62, ALIGNMENT_QUANTUM, 1)
  {
    L, h := SmallHeap(ranges, [Shape(32, 1), Shape(64, 1), Shape(48, 1)]);
    var size, k;
    size, k, ops, b := TooSmallRun(ranges, L, h, 1, 2);
    RequestIsSearch(ranges, size, ALIGNMENT_QUANTUM, k);
    NeedHolds(size, ALIGNMENT_QUANTUM);
  }

  /** Interleaved ranges pass validation, and their flat table is 32, 64, 48: a request for
      62 bytes is looked up at 64 and, once that pool is exhausted, given a block of 48. */
  lemma {:induction false} InterleavedTooSmall() returns (L: seq<Pool>, h: Heap, ops: seq<Op>, b: nat)
    ensures |L| == 3 && L[2].stride == 48 && Serves(L, h, ops, 1, 2, b)
    ensures Fresh(INTERLEAVED, L, h) && PassesValidation(INTERLEAVED) && Flat(INTERLEAVED) == [32, 64, 48]
    ensures Request(INTERLEAVED, 62, ALIGNMENT_QUANTUM, 1)
  {
    InterleavedAccepted();
    InterleavedFlat();
    L, h, ops, b := TooSmallAt48(INTERLEAVED);
  }
}
