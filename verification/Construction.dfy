/** Construction of the metapools as the objects see it: fetching from the arena and
    threading the freelists, in place on one array of bytes. */
module Construction {
  import opened Bits
  import opened Memory
  import opened Pools
  import opened Freelists
  import opened Arena
  import opened Build
  import opened Permutations

  /** `Metapool` objects before construction: one unplaced freelist for each pool. */
  method NewFreelists(mem: array<Byte>, shapes: seq<Shape>) returns (fs: seq<Freelist>)
    ensures |fs| == |shapes|
    ensures forall k | 0 <= k < |fs| :: fresh(fs[k]) && Unplaced(fs[k], mem, shapes[k])
    ensures forall j, k | 0 <= j < k < |fs| :: fs[j] != fs[k]
  {
    fs := [];
    var i := 0;
    while i < |shapes|
      invariant i <= |shapes| && |fs| == i
      invariant forall k | 0 <= k < i :: fresh(fs[k]) && Unplaced(fs[k], mem, shapes[k])
      invariant forall j, k | 0 <= j < k < i :: fs[j] != fs[k]
    {
      var f := new Freelist(mem, shapes[i].stride, shapes[i].count);
      fs := fs + [f];
      i := i + 1;
    }
  }

  predicate Unplaced(f: Freelist, mem: array<Byte>, s: Shape) {
    f.mem == mem && f.stride == s.stride && f.blockCount == s.count
  }

  /** Freelist `k` stands where the site says, at the head of its chain. */
  ghost predicate StandsAt(f: Freelist, p: Pool)
    reads f
  {
    f.Placed() && f.Shape() == p && f.head == p.base
  }

  /** One round of a metapool's constructor: fetch the storage of pool `k`, then thread
      its freelist through it. */
  method PlacePool(arena: MonotonicArena, f: Freelist, s: Shape, k: nat, ghost p: Pool, ghost offset: nat)
    requires Unplaced(f, f.mem, s) && k < U16 && arena.offset <= arena.size
    requires p == Pool(p.base, s.stride, s.count) && p.Fits(f.mem.Length) && p.base % 8 == 0
    requires FetchAt(arena.size, arena.offset, PoolBytes(s), PAGE, HEADER_BYTES) == Fetched(p.base, offset)
    modifies arena, f, f.mem
    ensures arena.offset == offset && StandsAt(f, p)
    ensures f.mem[..] == InitBlocks(old(f.mem[..]), p, k, p.count)
  {
    var bytes := s.stride * s.count % U32;
    SizeIsProduct(s);
    var r := arena.Fetch(bytes, PAGE, HEADER_BYTES);
    f.Initialize(r.address, k);
  }

  /** The shapes of a valid set, an order of construction in which all requests suffice,
      and an arena of the reserved size. */
  ghost predicate Buildable(shapes: seq<Shape>, order: seq<nat>, size: nat) {
    && GoodShapes(shapes) && IsPermutation(order, |shapes|) && RequestsSuffice(shapes, order)
    && ArenaSize(shapes) <= size <= ADDRESS_LIMIT
  }

  /** Arena and freelists were made for this memory and these shapes, each its own. */
  predicate MadeFor(mem: array<Byte>, arena: MonotonicArena, fs: seq<Freelist>, shapes: seq<Shape>) {
    && arena.size == mem.Length && |fs| == |shapes|
    && (forall k | 0 <= k < |fs| :: Unplaced(fs[k], mem, shapes[k]))
    && (forall j, k | 0 <= j < k < |fs| :: fs[j] != fs[k])
  }

  /** The object side of a site: memory, arena and the freelists placed so far. */
  ghost predicate Mirrors(mem: array<Byte>, arena: MonotonicArena, fs: seq<Freelist>, shapes: seq<Shape>, site: Site)
    requires |fs| == |shapes|
    reads mem, arena, fs
  {
    && site.Site? && site.mem == mem[..] && arena.offset == site.offset
    && forall k | k in site.bases && k < |fs| :: StandsAt(fs[k], PoolAt(shapes, site.bases, k))
  }

  method BuildStep(mem: array<Byte>, arena: MonotonicArena, fs: seq<Freelist>, shapes: seq<Shape>, k: nat,
                   ghost p: Pool, ghost offset: nat, ghost site: Site)
    requires MadeFor(mem, arena, fs, shapes) && Mirrors(mem, arena, fs, shapes, site)
    requires k < |shapes| < U16
    requires p == Pool(p.base, shapes[k].stride, shapes[k].count) && p.Fits(mem.Length) && p.base % 8 == 0
    requires arena.offset <= arena.size
    requires FetchAt(mem.Length, site.offset, PoolBytes(shapes[k]), PAGE, HEADER_BYTES) == Fetched(p.base, offset)
    modifies arena, fs[k], mem
    ensures Mirrors(mem, arena, fs, shapes, Site(offset, site.bases[k := p.base], InitBlocks(site.mem, p, k, p.count)))
  {
    PlacePool(arena, fs[k], shapes[k], k, p, offset);
    ghost var bases := site.bases[k := p.base];
    forall j | j in bases && j < |fs|
      ensures StandsAt(fs[j], PoolAt(shapes, bases, j))
    {
      if j != k { assert old(StandsAt(fs[j], PoolAt(shapes, site.bases, j))) && fs[j] != fs[k]; }
    }
  }

  method PlaceNext(mem: array<Byte>, arena: MonotonicArena, fs: seq<Freelist>, shapes: seq<Shape>, order: seq<nat>, n: nat,
                   ghost before: seq<Byte>, ghost sites: seq<Site>)
    requires Buildable(shapes, order, mem.Length) && n < |order| && |before| == mem.Length
    requires WholeTrail(shapes, before, order, sites)
    requires MadeFor(mem, arena, fs, shapes) && Mirrors(mem, arena, fs, shapes, sites[n])
    modifies arena, fs, mem
    ensures Mirrors(mem, arena, fs, shapes, sites[n + 1])
  {
    ghost var p := NextPool(shapes, before, order, sites, n);
    assert StepAt(shapes, order, sites, n);
    BuildStep(mem, arena, fs, shapes, order[n], p, p.base + PoolBytes(shapes[order[n]]), sites[n]);
  }

  /** The walk over all metapools and their pools. */
  method PlacePools(mem: array<Byte>, arena: MonotonicArena, fs: seq<Freelist>, shapes: seq<Shape>, order: seq<nat>,
                    ghost before: seq<Byte>, ghost sites: seq<Site>)
    requires Buildable(shapes, order, mem.Length) && |before| == mem.Length
    requires WholeTrail(shapes, before, order, sites)
    requires MadeFor(mem, arena, fs, shapes) && Mirrors(mem, arena, fs, shapes, sites[0])
    modifies arena, fs, mem
    ensures Mirrors(mem, arena, fs, shapes, sites[|order|])
  {
    var n := 0;
    while n < |order|
      invariant n <= |order| && Mirrors(mem, arena, fs, shapes, sites[n])
    {
      PlaceNext(mem, arena, fs, shapes, order, n, before, sites);
      n := n + 1;
    }
  }

  /** Construction of all metapools over a fresh arena, in the given order. Every fetch
      succeeds, and the freelists stand where an intact heap has its pools. */
  method BuildPools(mem: array<Byte>, shapes: seq<Shape>, order: seq<nat>)
    returns (arena: MonotonicArena, fs: seq<Freelist>, ghost site: Site)
    requires Buildable(shapes, order, mem.Length)
    modifies mem
    ensures Built(shapes, site) && forall k | 0 <= k < |fs| :: fresh(fs[k])
    ensures forall i, j | 0 <= i < j < |order| :: site.bases[order[i]] < site.bases[order[j]]
    ensures MadeFor(mem, arena, fs, shapes) && Mirrors(mem, arena, fs, shapes, site)
  {
    arena := new MonotonicArena(mem.Length);
    fs := NewFreelists(mem, shapes);
    ghost var before := mem[..];
    ghost var sites := TrailExists(shapes, before, order, |order|);
    PlacePools(mem, arena, fs, shapes, order, before, sites);
    BuildSucceeds(shapes, before, order, sites);
    BasesAscend(shapes, before, order, sites);
    site := sites[|order|];
  }
}
