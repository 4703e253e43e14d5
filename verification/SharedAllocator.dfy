/** `MemoryModel::Shared`: arena, metapools and allocator of one metaset, put together. */
module SharedAllocator {
  import opened Bits
  import opened Memory
  import opened Pools
  import opened Freelists
  import opened Heaps
  import opened HeapRuns
  import opened Lookup
  import opened Alignment
  import opened Metapool
  import opened Metaset
  import opened StrideRanges
  import opened AllocatorConfigs
  import opened Arena
  import opened Build
  import opened Construction
  import opened Guarantees
  import opened Service
  import opened Allocators
  import opened Permutations

  const MAX_ARENA: nat := 0x2_0000_0000

  /** What a metaset must satisfy: valid metapools whose steps are powers of two, declared
      in ascending order of their smallest strides, at most 4096 pools, and an arena of at
      most 8 GiB. */
  ghost predicate ValidSet(cs: seq<Config>) {
    && AllValid(cs) && PowerSteps(cs) && DeclaredAscending(cs)
    && |ShapesOf(cs)| <= MAX_STRIDE_COUNT
    && ArenaSize(ShapesOf(cs)) <= MAX_ARENA
  }

  /** What the gates of the code and the rules beside them come to: the table is accepted,
      with a stride total that is no wrapped sum, every step is a power of two, smallest
      strides ascend as declared, and the arena has at most 8 GiB. */
  lemma {:induction false} ValidSetIff(cs: seq<Config>, ranges: seq<Range>)
    requires AllValid(cs) && cs != [] && TableFor(cs, ranges, |cs|)
    ensures ValidSet(cs) <==>
            && Accepted(ranges) && Before(StrideCounts(cs), |cs|) < 0x1_0000_0000
            && (forall i | 0 <= i < |cs| :: IsPow2(cs[i].step))
            && (forall i, j | 0 <= i < j < |cs| :: cs[i].pivots[0] < cs[j].pivots[0])
            && ArenaSize(ShapesOf(cs)) <= 0x2_0000_0000
  {
    ShapesCounted(cs, |cs|);
    assert ShapesOf(cs[|cs|..]) == [];
    AcceptedIffCounts(cs, ranges);
    var total := Before(StrideCounts(cs), |cs|);
    if total < U32 { DivModUnique(total, U32, 0, total); }
  }

  lemma {:induction false} ShapesCounted(cs: seq<Config>, n: nat)
    requires AllValid(cs) && n <= |cs|
    ensures Before(StrideCounts(cs), n) + |ShapesOf(cs[n..])| == |ShapesOf(cs)|
  {
    if n == 0 {
      assert cs[0..] == cs;
    } else {
      ShapesCounted(cs, n - 1);
      assert cs[n - 1..][0] == cs[n - 1] && cs[n - 1..][1..] == cs[n..];
    }
  }

  lemma {:induction false} SetTable(cs: seq<Config>, ranges: seq<Range>)
    requires ValidSet(cs) && TableFor(cs, ranges, |cs|) && ValidTable(ranges, 0)
    ensures SameStrides(ShapesOf(cs), Flat(ranges)) && (Ascending(Flat(ranges)) <==> IntervalsDisjoint(ranges))
  {
    assert AllMatch(cs, ranges);
    ShapesMatchTable(cs, ranges);
    AscendingIffDisjoint(ranges, 0);
  }

  lemma {:induction false} HeadsMatch(L: seq<Pool>, fs: seq<Freelist>)
    requires |fs| == |L| && forall k | 0 <= k < |L| :: fs[k].head == L[k].base
    ensures HeadsOf(fs) == HeapOf(L, []).heads
  {}

  /** A finished construction is a valid allocator with every block free. */
  lemma {:induction false} Assembled(mem: array<Byte>, arena: MonotonicArena, fs: seq<Freelist>, shapes: seq<Shape>, site: Site)
    requires Built(shapes, site) && MadeFor(mem, arena, fs, shapes) && Mirrors(mem, arena, fs, shapes, site)
    ensures var L := LayoutOf(shapes, site.bases);
            && HeapInv(L, Heap(mem[..], HeadsOf(fs)), AllFree(L))
            && forall k | 0 <= k < |fs| :: fs[k].mem == mem && fs[k].Placed() && fs[k].Shape() == L[k]
  {
    var L := LayoutOf(shapes, site.bases);
    forall k | 0 <= k < |fs|
      ensures StandsAt(fs[k], L[k]) && Unplaced(fs[k], mem, shapes[k])
    {
      assert k in site.bases;
    }
    HeadsMatch(L, fs);
  }

  method Assemble(mem: array<Byte>, ranges: seq<Range>, arena: MonotonicArena, fs: seq<Freelist>, shapes: seq<Shape>, ghost site: Site)
    returns (a: AllocatorCore)
    requires Built(shapes, site) && MadeFor(mem, arena, fs, shapes) && Mirrors(mem, arena, fs, shapes, site)
    requires StepsFit(ranges)
    ensures fresh(a) && a.proxies == fs && a.Valid() && a.ranges == ranges && a.mem == mem && a.free == AllFree(a.layout)
    ensures |a.layout| == |shapes| && forall k | 0 <= k < |shapes| ::
              a.layout[k].stride == shapes[k].stride && a.layout[k].count == shapes[k].count
              && a.layout[k].base == site.bases[k] && a.layout[k].base % 4096 == 0
  {
    Assembled(mem, arena, fs, shapes, site);
    ghost var L := LayoutOf(shapes, site.bases);
    a := new AllocatorCore(mem, ranges, fs, L, AllFree(L));
  }

  /** The range table of a valid metaset. */
  method BuildTable(cs: seq<Config>) returns (ranges: seq<Range>)
    requires ValidSet(cs)
    ensures TableFor(cs, ranges, |cs|)
    ensures ValidTable(ranges, 0) && StepsFit(ranges) && SameStrides(ShapesOf(cs), Flat(ranges))
    ensures Ascending(Flat(ranges)) <==> IntervalsDisjoint(ranges)
  {
    ShapesCounted(cs, |cs|);
    assert ShapesOf(cs[|cs|..]) == [];
    ranges := BuildRangeArray(cs);
    SetTable(cs, ranges);
    TableSteps(ranges, 0);
  }

  /** Builds the allocator of a valid metaset, constructing its pools in any order in which
      their requests suffice: one pool for each stride of the set, with the blocks it is to
      have, all of them free, in the arena in the order of construction, and the range table
      of the set to find them by. That table ascends exactly when its ranges do not overlap. */
  method Create(cs: seq<Config>, order: seq<nat>) returns (a: AllocatorCore)
    requires ValidSet(cs) && IsPermutation(order, |ShapesOf(cs)|) && RequestsSuffice(ShapesOf(cs), order)
    ensures fresh(a) && fresh(a.mem) && forall k | 0 <= k < |a.proxies| :: fresh(a.proxies[k])
    ensures a.Valid() && a.free == AllFree(a.layout) && a.mem.Length == ArenaSize(ShapesOf(cs))
    ensures |a.layout| == |ShapesOf(cs)| && forall k | 0 <= k < |a.layout| ::
              && a.layout[k].stride == ShapesOf(cs)[k].stride && a.layout[k].count == ShapesOf(cs)[k].count
              && a.layout[k].base % 4096 == 0
    ensures forall i, j | 0 <= i < j < |order| :: a.layout[order[i]].base < a.layout[order[j]].base
    ensures TableFor(cs, a.ranges, |cs|) && ValidTable(a.ranges, 0) && SameStrides(ShapesOf(cs), Flat(a.ranges))
    ensures Ascending(Flat(a.ranges)) <==> IntervalsDisjoint(a.ranges)
  {
    var ranges := BuildTable(cs);
    SetIsBuildable(cs);
    a := Construct(ShapesOf(cs), ranges, order);
  }

  /** Arena, pools and allocator over pools of the given shapes. */
  method Construct(shapes: seq<Shape>, ranges: seq<Range>, order: seq<nat>) returns (a: AllocatorCore)
    requires Buildable(shapes, order, ArenaSize(shapes)) && StepsFit(ranges)
    ensures fresh(a) && fresh(a.mem) && forall k | 0 <= k < |a.proxies| :: fresh(a.proxies[k])
    ensures a.Valid() && a.free == AllFree(a.layout) && a.mem.Length == ArenaSize(shapes) && a.ranges == ranges
    ensures |a.layout| == |shapes| && forall k | 0 <= k < |a.layout| ::
              && a.layout[k].stride == shapes[k].stride && a.layout[k].count == shapes[k].count
              && a.layout[k].base % 4096 == 0
    ensures forall i, j | 0 <= i < j < |order| :: a.layout[order[i]].base < a.layout[order[j]].base
  {
    var mem := new Byte[ArenaSize(shapes)];
    var arena, fs, site := BuildPools(mem, shapes, order);
    a := Assemble(mem, ranges, arena, fs, shapes, site);
  }

  /** The first request to an allocator with all blocks free is given the first block of the
      first pool that is large enough, and is turned down exactly when none is. */
  lemma {:induction false} FirstRequest(ranges: seq<Range>, L: seq<Pool>, h: Heap, size: nat, alignment: nat, k: nat)
    requires ValidTable(ranges, 0) && Request(ranges, size, alignment, k)
    requires |L| == |Flat(ranges)| <= MAX_STRIDE_COUNT && forall i | 0 <= i < |L| :: L[i].stride == Flat(ranges)[i]
    requires HeapInv(L, h, AllFree(L))
    ensures k >= |L| <==> forall i | 0 <= i < |L| :: L[i].stride < Need(size, alignment)
    ensures k < |L| ==>
              && HeadsReadable(h) && Take(h, k).1 == L[k].base != 0 && FirstAvailable(h.heads, k) == k
              && L[k].stride >= Need(size, alignment) && forall i | 0 <= i < k :: L[i].stride < Need(size, alignment)
  {
    RequestIsSearch(ranges, size, alignment, k);
    if k < |L| {
      TakeRefines(L, h, AllFree(L), k);
      assert AllFree(L)[k] == AddressOrder(L[k]) && L[k].Fits(|h.mem|);
      assert AllFree(L)[k][0] == L[k].Block(0);
      InvReadable(L, h, AllFree(L));
    }
  }

  /** `alloc` on an allocator with all blocks free; `k` is the pool that serves. */
  method AllocFirst(a: AllocatorCore, size: nat, alignment: nat, ghost shapes: seq<Shape>) returns (r: Outcome, ghost k: nat)
    requires a.Valid() && a.free == AllFree(a.layout)
    requires ValidTable(a.ranges, 0) && SameStrides(shapes, Flat(a.ranges)) && |a.layout| == |shapes|
    requires forall i | 0 <= i < |a.layout| :: a.layout[i].stride == shapes[i].stride
    requires 0 < size <= 0x4000_0000 && ValidAlignment(alignment)
    modifies a`free, a.proxies
    ensures a.Valid() && k <= |shapes|
    ensures forall i | 0 <= i < k :: shapes[i].stride < Need(size, alignment)
    ensures k < |shapes| ==> shapes[k].stride >= Need(size, alignment) && a.free == Popped(old(a.free), k)
    ensures r == if k < |a.layout| then Served(a.layout[k].base) else NoMatch
  {
    GigabyteInRange(a.ranges, size, alignment);
    k := Scan(a.ranges, AlignedSize(size, alignment));
    TableSize(a.ranges);
    FirstRequest(a.ranges, a.layout, a.View(), size, alignment, k);
    r := a.Alloc(size, alignment);
    if k > |a.layout| { k := |a.layout|; }
  }

  lemma {:induction false} TableSize(ranges: seq<Range>)
    requires ValidTable(ranges, 0)
    ensures |Flat(ranges)| <= MAX_STRIDE_COUNT
  {
    FlatLength(ranges, 0);
  }

  /** From the declaration of a set to its first block: a request of up to 1 GiB to the
      allocator just created is served exactly when its need fits some stride of the set,
      by the first pool that is large enough, and gets its first block. */
  method CreateAndAlloc(cs: seq<Config>, order: seq<nat>, size: nat, alignment: nat)
    returns (a: AllocatorCore, r: Outcome, ghost k: nat)
    requires ValidSet(cs) && IsPermutation(order, |ShapesOf(cs)|) && RequestsSuffice(ShapesOf(cs), order)
    requires 0 < size <= 0x4000_0000 && ValidAlignment(alignment)
    ensures a.Valid() && k <= |a.layout| == |ShapesOf(cs)|
    ensures forall i | 0 <= i < k :: ShapesOf(cs)[i].stride < Need(size, alignment)
    ensures k < |a.layout| ==> ShapesOf(cs)[k].stride >= Need(size, alignment)
    ensures r == if k < |a.layout| then Served(a.layout[k].base) else NoMatch
  {
    a := Create(cs, order);
    r, k := AllocFirst(a, size, alignment, ShapesOf(cs));
  }

  // ---------------------------------------------------------------- the documented example

  const EXAMPLE: seq<Config> :=
    [Config(Mul2, 128, 8, [16, 64, 128, 192]), Config(Same, 256, 16, [256, 512]), Config(Same, 64, 8, [576, 576])]

  lemma {:induction false} ExampleMetapools()
    ensures AllValid(EXAMPLE) && PowerSteps(EXAMPLE) && DeclaredAscending(EXAMPLE)
    ensures StrideCount(EXAMPLE[0]) == 23 && StrideCount(EXAMPLE[1]) == 17 && StrideCount(EXAMPLE[2]) == 1
  {
    assert Pow2(3) == 8 && Pow2(4) == 16;
    ExampleMul();
    ExampleFlat(Config(Same, 256, 16, [256, 512]));
    ExampleFlat(Config(Same, 64, 8, [576, 576]));
  }

  lemma {:induction false} ExampleMul()
    ensures Valid(Config(Mul2, 128, 8, [16, 64, 128, 192])) && StrideCount(Config(Mul2, 128, 8, [16, 64, 128, 192])) == 23
  {
    assert Pow2(3) == 8;
    ValidIff(Config(Mul2, 128, 8, [16, 64, 128, 192]));
  }

  lemma {:induction false} ExampleFlat(c: Config)
    requires c == Config(Same, 256, 16, [256, 512]) || c == Config(Same, 64, 8, [576, 576])
    ensures Valid(c) && StrideCount(c) == if c.step == 16 then 17 else 1
  {
    ValidIff(c);
  }

  /** Block counts of its first metapool: doubled at 64, 128 and 192. */
  function MulCount(i: nat): nat {
    if i < 6 then 128 else if i < 14 then 256 else if i < 22 then 512 else 1024
  }

  lemma {:induction false} MulCounts(i: nat)
    requires i < 23 && Valid(EXAMPLE[0])
    ensures BlockCount(EXAMPLE[0], i) == MulCount(i)
  {
    assert Pow2(0) == 1 && Pow2(1) == 2 && Pow2(2) == 4 && Pow2(3) == 8;
    SegmentCount(EXAMPLE[0], i, if i < 6 then 0 else if i < 14 then 1 else if i < 22 then 2 else 3);
  }

  lemma {:induction false} FlatCounts(i: nat)
    requires AllValid(EXAMPLE)
    ensures i < 17 ==> BlockCount(EXAMPLE[1], i) == 256
    ensures BlockCount(EXAMPLE[2], 0) == 64
  {
    if i < 17 { SegmentCount(EXAMPLE[1], i, if i < 16 then 0 else 1); }
    OneStrideCount(EXAMPLE[2]);
  }

  lemma {:induction false} ExampleShape(k: nat)
    requires AllValid(EXAMPLE) && k < |ShapesOf(EXAMPLE)|
    requires StrideCount(EXAMPLE[0]) == 23 && StrideCount(EXAMPLE[1]) == 17 && StrideCount(EXAMPLE[2]) == 1
    ensures ShapesOf(EXAMPLE)[k].stride <= 576 && ShapesOf(EXAMPLE)[k].count <= 1024
  {
    var j, i := ShapeFrom(EXAMPLE, k);
    StridesSpan(EXAMPLE[j], i);
    if j == 0 { MulCounts(i); } else { FlatCounts(i); }
  }

  lemma {:induction false} ArenaBound(shapes: seq<Shape>)
    requires forall k | 0 <= k < |shapes| :: shapes[k].stride <= 576 && shapes[k].count <= 1024
    ensures ArenaSize(shapes) <= 0x10_0000 * |shapes|
  {
    if shapes == [] {
      ArenaGrows([], Shape(0, 0));
    } else {
      var n := |shapes| - 1;
      ArenaBound(shapes[..n]);
      ArenaGrows(shapes[..n], shapes[n]);
      MulMono(shapes[n].stride, 576, shapes[n].count);
      assert shapes == shapes[..n] + [shapes[n]];
    }
  }

  /** The metaset of the documentation is valid and can be constructed in any order. Its
      first metapool has 23 strides; the block count doubles at every pivot, the last one
      included. */
  lemma {:induction false} ExampleIsValid(order: seq<nat>, i: nat)
    requires IsPermutation(order, 41)
    ensures ValidSet(EXAMPLE) && |ShapesOf(EXAMPLE)| == 41 && RequestsSuffice(ShapesOf(EXAMPLE), order)
    ensures i < 23 ==> ShapesOf(EXAMPLE)[i] == Shape(16 + i * 8, MulCount(i))
    ensures i < 17 ==> ShapesOf(EXAMPLE)[23 + i] == Shape(256 + i * 16, 256)
    ensures ShapesOf(EXAMPLE)[40] == Shape(576, 64)
  {
    ExampleMetapools();
    ExampleTable(i);
    var shapes := ShapesOf(EXAMPLE);
    forall k | 0 <= k < |shapes|
      ensures shapes[k].stride <= 576 && shapes[k].count <= 1024 && Exact(shapes[k])
    {
      ExampleShape(k);
      SizeIsProduct(shapes[k]);
      MulMono(shapes[k].stride, 576, shapes[k].count);
    }
    ArenaBound(shapes);
    SetIsBuildable(EXAMPLE);
    ExactSuffices(shapes, order);
  }

  lemma {:induction false} ExampleTable(i: nat)
    requires AllValid(EXAMPLE)
    requires StrideCount(EXAMPLE[0]) == 23 && StrideCount(EXAMPLE[1]) == 17 && StrideCount(EXAMPLE[2]) == 1
    ensures |ShapesOf(EXAMPLE)| == 41
    ensures i < 23 ==> ShapesOf(EXAMPLE)[i] == Shape(16 + i * 8, MulCount(i))
    ensures i < 17 ==> ShapesOf(EXAMPLE)[23 + i] == Shape(256 + i * 16, 256)
    ensures ShapesOf(EXAMPLE)[40] == Shape(576, 64)
  {
    var counts := StrideCounts(EXAMPLE);
    assert Before(counts, 0) == 0 && Before(counts, 1) == 23 && Before(counts, 2) == 40 && Before(counts, 3) == 41;
    if i < 23 {
      ShapeAt(EXAMPLE, 0, i);
      MulCounts(i);
    }
    FlatCounts(i);
    if i < 17 { ShapeAt(EXAMPLE, 1, i); }
    ShapeAt(EXAMPLE, 2, 0);
  }

  // ---------------------------------------------------------------- sets of one stride

  /** One metapool of one stride: a valid set whenever its arena is small enough, and its
      only pool, being the last, is built unless its size is a multiple of 4 GiB. */
  lemma {:induction false} SingleStrideSet(stride: nat, step: nat, n: nat)
    requires SingleStride(stride, step, n) && stride * n + PAGE <= MAX_ARENA
    ensures var cs := [Config(Same, n, step, [stride, stride])];
            && ValidSet(cs) && ShapesOf(cs) == [Shape(stride, n)]
            && (RequestsSuffice(ShapesOf(cs), [0]) <==> stride * n % U32 != 0)
  {
    var c := Config(Same, n, step, [stride, stride]);
    SingleStrideShape(c, stride, step, n);
    assert [c][1..] == [];
    assert ShapesOf([c]) == [Shape(stride, n)];
    SingleStrideArena(stride, n);
    SizeIsProduct(Shape(stride, n));
  }

  /** What the configuration checks demand of a single stride. */
  ghost predicate SingleStride(stride: nat, step: nat, n: nat) {
    && 1 <= n < U32 && IsPow2(step) && 8 <= step <= MAX_STEP
    && 8 <= stride <= MAX_STRIDE && stride % 8 == 0 && stride % step == 0
  }

  lemma {:induction false} SingleStrideShape(c: Config, stride: nat, step: nat, n: nat)
    requires SingleStride(stride, step, n) && c == Config(Same, n, step, [stride, stride])
    ensures Valid(c) && ShapesOfOne(c) == [Shape(stride, n)]
  {
    CountFlat(n, 1);
    DivModUnique(0, step, 0, 0);
    assert Valid(c) && StrideCount(c) == 1;
    NonePassed(c.pivots, stride);
    assert StrideAt(c, 0) == stride && BlockCount(c, 0) == n;
  }

  lemma {:induction false} CountFlat(n: nat, k: nat)
    requires n < U32
    ensures CountAfter(Same, n, k) == n
  {
    if k > 0 { CountFlat(n, k - 1); }
  }

  lemma {:induction false} SingleStrideArena(stride: nat, n: nat)
    ensures ArenaSize([Shape(stride, n)]) == stride * n + PAGE
  {
    var costs := Costs([Shape(stride, n)]);
    SizeIsProduct(Shape(stride, n));
    assert costs[..0] == [] && Total(costs) == costs[0];
  }

  /** The 32-bit product matters: four blocks of 1 GiB are a set the code accepts, well
      within the 8 GiB limit, but its pool asks the arena for nothing and is not built. */
  lemma {:induction false} ProductWraps(mem: seq<Byte>, sites: seq<Site>)
    requires var shapes := [Shape(0x4000_0000, 4)];
             ArenaSize(shapes) <= |mem| <= ADDRESS_LIMIT && WholeTrail(shapes, mem, [0], sites)
    ensures var cs := [Config(Same, 4, 0x2000_0000, [0x4000_0000, 0x4000_0000])];
            && ValidSet(cs) && ShapesOf(cs) == [Shape(0x4000_0000, 4)] && !Built(ShapesOf(cs), sites[1])
  {
    HalfGiB();
    SingleStrideSet(0x4000_0000, 0x2000_0000, 4);
    BuiltIff([Shape(0x4000_0000, 4)], mem, [0], sites);
  }

  /** ... while a pool of 4 GiB and 4096 bytes, being the last, is built. */
  lemma {:induction false} LastProductMayWrap(mem: seq<Byte>, sites: seq<Site>)
    requires var shapes := [Shape(4096, 0x10_0001)];
             ArenaSize(shapes) <= |mem| <= ADDRESS_LIMIT && WholeTrail(shapes, mem, [0], sites)
    ensures var cs := [Config(Same, 0x10_0001, 4096, [4096, 4096])];
            && ValidSet(cs) && ShapesOf(cs) == [Shape(4096, 0x10_0001)] && Built(ShapesOf(cs), sites[1])
  {
    Pow2Add(6, 6);
    assert Pow2(6) == 64;
    assert 4096 == Pow2(12);
    SingleStrideSet(4096, 4096, 0x10_0001);
    BuiltIff([Shape(4096, 0x10_0001)], mem, [0], sites);
  }
}
