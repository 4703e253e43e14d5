/** Construction: every pool of the flat table fetches its storage from the arena and
    threads its freelist through it. */
module Build {
  import opened Bits
  import opened Memory
  import opened Pools
  import opened Heaps
  import opened Arena
  import opened Permutations

  const PAGE: nat := 4096

  datatype Shape = Shape(stride: nat, count: nat)

  /** What a valid metaset guarantees of a pool. */
  predicate GoodShape(s: Shape) {
    s.stride >= 8 && s.stride % 8 == 0 && s.count >= 1
  }

  /** Bytes of a pool: the product of stride and block count, see `SizeIsProduct`. */
  function Size(s: Shape): nat {
    Pool(0, s.stride, s.count).End()
  }

  /** The 32-bit product of stride and block count does not wrap. */
  predicate Exact(s: Shape) {
    Size(s) < U32
  }

  /** `pool.stride * pool.block_count`, a product of two 32-bit words. */
  function PoolBytes(s: Shape): nat {
    Size(s) % U32
  }

  /** What the pool contributes to `reserved_bytes`: a 64-bit product and a page. */
  function ReservedBytes(s: Shape): nat {
    Size(s) + PAGE
  }

  function Costs(shapes: seq<Shape>): (c: seq<nat>)
    ensures |c| == |shapes| && forall i | 0 <= i < |c| :: c[i] == ReservedBytes(shapes[i])
  {
    seq(|shapes|, i requires 0 <= i < |shapes| => ReservedBytes(shapes[i]))
  }

  /** `arena_size`. */
  function ArenaSize(shapes: seq<Shape>): nat {
    Total(Costs(shapes))
  }

  /** Byte for byte: each pool adds stride times block count and a page. */
  lemma {:induction false} ArenaGrows(shapes: seq<Shape>, s: Shape)
    ensures ArenaSize([]) == 0
    ensures ArenaSize(shapes + [s]) == ArenaSize(shapes) + s.stride * s.count + 4096
  {
    SizeIsProduct(s);
    var costs := Costs(shapes + [s]);
    assert costs[..|shapes|] == Costs(shapes);
    assert Costs([]) == [];
  }

  datatype Site = Site(offset: nat, bases: map<nat, nat>, mem: seq<Byte>) | Failed

  function PoolAt(shapes: seq<Shape>, bases: map<nat, nat>, k: nat): Pool
    requires k < |shapes| && k in bases
  {
    Pool(bases[k], shapes[k].stride, shapes[k].count)
  }

  /** Pool `k` fetches its storage and initializes its freelist with header `k`. */
  function PlaceOne(shapes: seq<Shape>, site: Site, k: nat): (site': Site)
    requires k < |shapes| && (site.Site? ==> site.offset <= |site.mem|)
    ensures site'.Site? ==> site.Site? && site'.offset <= |site'.mem| == |site.mem|
  {
    if site.Failed? then Failed
    else
      var r := FetchAt(|site.mem|, site.offset, PoolBytes(shapes[k]), PAGE, HEADER_BYTES);
      if r.NoFit? then Failed
      else
        var p := Pool(r.address, shapes[k].stride, shapes[k].count);
        if !p.Fits(|site.mem|) || r.offset > |site.mem| then Failed
        else Site(r.offset, site.bases[k := r.address], InitBlocks(site.mem, p, k, p.count))
  }

  predicate StepAt(shapes: seq<Shape>, order: seq<nat>, sites: seq<Site>, i: nat)
    requires i + 1 < |sites| && i < |order| && order[i] < |shapes|
  {
    && (sites[i].Site? ==> sites[i].offset <= |sites[i].mem|)
    && sites[i + 1] == PlaceOne(shapes, sites[i], order[i])
  }

  /** The sites passed when the pools are placed in the given order: before the first
      pool, and after each of those placed so far. */
  ghost predicate Trail(shapes: seq<Shape>, mem: seq<Byte>, order: seq<nat>, sites: seq<Site>) {
    && 0 < |sites| <= |order| + 1 && sites[0] == Site(0, map[], mem)
    && (forall i | 0 <= i < |order| :: order[i] < |shapes|)
    && forall i | 0 <= i < |sites| - 1 :: StepAt(shapes, order, sites, i)
  }

  /** ... and after all of them. */
  ghost predicate WholeTrail(shapes: seq<Shape>, mem: seq<Byte>, order: seq<nat>, sites: seq<Site>) {
    Trail(shapes, mem, order, sites) && |sites| == |order| + 1
  }

  lemma {:induction false} TrailInside(shapes: seq<Shape>, mem: seq<Byte>, order: seq<nat>, sites: seq<Site>, n: nat)
    requires Trail(shapes, mem, order, sites) && n < |sites|
    ensures sites[n].Site? ==> sites[n].offset <= |sites[n].mem| == |mem|
  {
    if n > 0 {
      assert StepAt(shapes, order, sites, n - 1);
      TrailInside(shapes, mem, order, sites, n - 1);
    }
  }

  lemma {:induction false} TrailExtends(shapes: seq<Shape>, mem: seq<Byte>, order: seq<nat>, sites: seq<Site>, next: Site)
    requires Trail(shapes, mem, order, sites) && |sites| <= |order|
    requires var n := |sites| - 1;
             (sites[n].Site? ==> sites[n].offset <= |sites[n].mem|) && next == PlaceOne(shapes, sites[n], order[n])
    ensures Trail(shapes, mem, order, sites + [next])
  {
    forall i | 0 <= i < |sites|
      ensures StepAt(shapes, order, sites + [next], i)
    {
      if i < |sites| - 1 { assert StepAt(shapes, order, sites, i); }
    }
  }

  /** There is a trail to the end, whether or not construction succeeds. */
  lemma {:induction false} TrailExists(shapes: seq<Shape>, mem: seq<Byte>, order: seq<nat>, n: nat) returns (sites: seq<Site>)
    requires n <= |order| && forall i | 0 <= i < |order| :: order[i] < |shapes|
    ensures Trail(shapes, mem, order, sites) && |sites| == n + 1
  {
    if n == 0 {
      sites := [Site(0, map[], mem)];
    } else {
      sites := TrailExists(shapes, mem, order, n - 1);
      TrailInside(shapes, mem, order, sites, n - 1);
      var next := PlaceOne(shapes, sites[n - 1], order[n - 1]);
      TrailExtends(shapes, mem, order, sites, next);
      sites := sites + [next];
    }
  }

  // ---------------------------------------------------------------- one pool

  predicate SiteOk(shapes: seq<Shape>, site: Site) {
    && site.Site? && site.offset <= |site.mem| <= ADDRESS_LIMIT && site.offset % 8 == 0
    && forall k <- site.bases :: k < |shapes|
  }

  /** Pool `k` lies below the offset, on a page boundary, freshly initialized. */
  ghost predicate PoolPlaced(shapes: seq<Shape>, site: Site, k: nat)
    requires site.Site? && k in site.bases && k < |shapes|
  {
    var p := PoolAt(shapes, site.bases, k);
    && p.Fits(|site.mem|) && p.End() <= site.offset && p.base % PAGE == 0
    && FreeChain(site.mem, p, p.base, AddressOrder(p)) && HeadersAre(site.mem, p, k)
  }

  ghost predicate SiteInv(shapes: seq<Shape>, site: Site) {
    && SiteOk(shapes, site)
    && (forall k <- site.bases :: PoolPlaced(shapes, site, k))
    && (forall j, k | j in site.bases && k in site.bases && j != k :: Apart(PoolAt(shapes, site.bases, j), PoolAt(shapes, site.bases, k)))
  }

  lemma {:induction false} SizeIsProduct(s: Shape)
    ensures Size(s) == s.stride * s.count
  {
    BlockFormula(Pool(0, s.stride, s.count), s.count);
  }

  lemma {:induction false} EndIsSize(p: Pool)
    ensures p.End() == p.base + Size(Shape(p.stride, p.count))
  {
    BlockFormula(p, p.count);
    SizeIsProduct(Shape(p.stride, p.count));
  }

  /** The request is never more than the pool, and is the pool unless it wraps. */
  lemma {:induction false} RequestedBytes(s: Shape)
    requires GoodShape(s)
    ensures 8 <= Size(s) && Size(s) % 8 == 0
    ensures PoolBytes(s) <= Size(s) && PoolBytes(s) % 8 == 0
    ensures Exact(s) ==> PoolBytes(s) == Size(s)
    ensures !Exact(s) ==> PoolBytes(s) + U32 <= Size(s)
  {
    SizeIsProduct(s);
    MulMono(1, s.count, s.stride);
    ModOfMultiple(s.count, 8, s.stride);
    assert s.count * s.stride == s.stride * s.count;
    WordOf(Size(s));
  }

  lemma {:induction false} WordOf(n: nat)
    requires n % 8 == 0
    ensures n % U32 <= n && n % U32 % 8 == 0
    ensures n < U32 ==> n % U32 == n
    ensures n >= U32 ==> n % U32 + U32 <= n
  {}


  /** A request for any bytes at all succeeds, costs at most one page besides the pool,
      and the freelist comes out in address order. The arena then stands at the end of
      what was requested, which is the end of the pool if the product is exact. */
  lemma {:induction false} PlaceOneSucceeds(shapes: seq<Shape>, site: Site, k: nat) returns (p: Pool)
    requires SiteOk(shapes, site) && k < |shapes| && GoodShape(shapes[k]) && k < U16
    requires PoolBytes(shapes[k]) != 0
    requires site.offset + ReservedBytes(shapes[k]) <= |site.mem|
    ensures p == Pool(p.base, shapes[k].stride, shapes[k].count) && p.Fits(|site.mem|)
    ensures site.offset + HEADER_BYTES <= p.base <= site.offset + PAGE && p.base % PAGE == 0
    ensures p.base % 8 == 0 && p.End() % 8 == 0
    ensures Exact(shapes[k]) ==> p.base + PoolBytes(shapes[k]) == p.End()
    ensures FetchAt(|site.mem|, site.offset, PoolBytes(shapes[k]), PAGE, HEADER_BYTES)
            == Fetched(p.base, p.base + PoolBytes(shapes[k]))
    ensures PlaceOne(shapes, site, k) ==
            Site(p.base + PoolBytes(shapes[k]), site.bases[k := p.base], InitBlocks(site.mem, p, k, p.count))
  {
    RequestedBytes(shapes[k]);
    var base := PageFetched(|site.mem|, site.offset, PoolBytes(shapes[k]));
    p := Pool(base, shapes[k].stride, shapes[k].count);
    PoolFits(p, shapes[k], site.offset, |site.mem|);
    EndIsSize(p);
    ModSum(p.base, Size(shapes[k]), 8);
    PlacedAs(shapes, site, k, p, base + PoolBytes(shapes[k]));
  }

  lemma {:induction false} PageFetched(size: nat, offset: nat, bytes: nat) returns (base: nat)
    requires offset % 8 == 0 && 0 < bytes && bytes % 8 == 0 && offset + PAGE + bytes <= size
    ensures FetchAt(size, offset, bytes, PAGE, HEADER_BYTES) == Fetched(base, base + bytes)
    ensures offset + HEADER_BYTES <= base <= offset + PAGE && base % PAGE == 0 && base % 8 == 0
    ensures base + bytes <= size && (base + bytes) % 8 == 0
  {
    PageCost(size, offset, bytes);
    base := FetchAt(size, offset, bytes, PAGE, HEADER_BYTES).address;
  }

  lemma {:induction false} PlacedAs(shapes: seq<Shape>, site: Site, k: nat, p: Pool, offset: nat)
    requires site.Site? && site.offset <= |site.mem| && k < |shapes|
    requires p == Pool(p.base, shapes[k].stride, shapes[k].count) && p.Fits(|site.mem|) && offset <= |site.mem|
    requires FetchAt(|site.mem|, site.offset, PoolBytes(shapes[k]), PAGE, HEADER_BYTES) == Fetched(p.base, offset)
    ensures PlaceOne(shapes, site, k) == Site(offset, site.bases[k := p.base], InitBlocks(site.mem, p, k, p.count))
  {}

  lemma {:induction false} PoolFits(p: Pool, s: Shape, offset: nat, size: nat)
    requires GoodShape(s) && p == Pool(p.base, s.stride, s.count) && HEADER_BYTES <= p.base <= offset + PAGE
    requires offset + ReservedBytes(s) <= size <= ADDRESS_LIMIT
    ensures p.Fits(size)
  {
    EndIsSize(p);
  }

  /** The bases before are kept, and their pools end below the new one. */
  lemma {:induction false} OlderPoolKept(shapes: seq<Shape>, site: Site, site': Site, p: Pool, k: nat, j: nat)
    requires SiteInv(shapes, site) && SiteOk(shapes, site') && j in site.bases && j != k && k < |shapes|
    requires p.Fits(|site.mem|) && site.offset + HEADER_BYTES <= p.base && p.End() <= site'.offset
    requires site'.bases == site.bases[k := p.base]
    requires SameOutside(site.mem, site'.mem, p.base - 2, p.End())
    ensures PoolAt(shapes, site'.bases, j) == PoolAt(shapes, site.bases, j)
    ensures PoolPlaced(shapes, site', j) && Apart(PoolAt(shapes, site.bases, j), p)
  {
    assert PoolPlaced(shapes, site, j);
    KeptBelow(site.mem, site'.mem, p, PoolAt(shapes, site.bases, j), j);
  }

  ghost predicate OlderOk(shapes: seq<Shape>, site: Site, site': Site, p: Pool, j: nat)
    requires site.Site? && site'.Site? && j < |shapes| && j in site.bases && j in site'.bases
  {
    && PoolAt(shapes, site'.bases, j) == PoolAt(shapes, site.bases, j)
    && PoolPlaced(shapes, site', j)
    && Apart(PoolAt(shapes, site.bases, j), p)
  }

  lemma {:induction false} SiteGrows(shapes: seq<Shape>, site: Site, site': Site, p: Pool, k: nat)
    requires SiteInv(shapes, site) && SiteOk(shapes, site') && k < |shapes| && k !in site.bases
    requires site'.bases == site.bases[k := p.base] && PoolAt(shapes, site'.bases, k) == p
    requires forall j <- site.bases :: OlderOk(shapes, site, site', p, j)
    requires PoolPlaced(shapes, site', k)
    ensures SiteInv(shapes, site')
  {
    forall i, j | i in site'.bases && j in site'.bases && i != j
      ensures Apart(PoolAt(shapes, site'.bases, i), PoolAt(shapes, site'.bases, j))
    {
      if i != k { assert OlderOk(shapes, site, site', p, i); }
      if j != k { assert OlderOk(shapes, site, site', p, j); }
    }
    forall j <- site'.bases
      ensures PoolPlaced(shapes, site', j)
    {
      if j != k { assert OlderOk(shapes, site, site', p, j); }
    }
  }

  lemma {:induction false} NewPoolPlaced(shapes: seq<Shape>, site: Site, site': Site, k: nat, p: Pool)
    requires SiteOk(shapes, site) && k < |shapes| && k < U16
    requires p == Pool(p.base, shapes[k].stride, shapes[k].count) && p.Fits(|site.mem|) && LayoutSound(p, k)
    requires p.base % PAGE == 0 && p.End() % 8 == 0
    requires site' == Site(p.End(), site.bases[k := p.base], InitBlocks(site.mem, p, k, p.count))
    ensures SiteOk(shapes, site') && PoolAt(shapes, site'.bases, k) == p && PoolPlaced(shapes, site', k)
    ensures SameOutside(site.mem, site'.mem, p.base - 2, p.End())
  {
    InitializeSound(site.mem, p, k);
  }

  lemma {:induction false} NewPoolKeeps(shapes: seq<Shape>, site: Site, site': Site, k: nat, p: Pool)
    requires SiteInv(shapes, site) && k < |shapes| && k !in site.bases && k < U16
    requires p == Pool(p.base, shapes[k].stride, shapes[k].count) && p.Fits(|site.mem|) && LayoutSound(p, k)
    requires site.offset + HEADER_BYTES <= p.base && p.base % PAGE == 0 && p.End() % 8 == 0
    requires site' == Site(p.End(), site.bases[k := p.base], InitBlocks(site.mem, p, k, p.count))
    ensures SiteInv(shapes, site') && site'.bases.Keys == site.bases.Keys + {k}
  {
    NewPoolPlaced(shapes, site, site', k, p);
    forall j <- site.bases
      ensures OlderOk(shapes, site, site', p, j)
    {
      OlderPoolKept(shapes, site, site', p, k, j);
    }
    SiteGrows(shapes, site, site', p, k);
  }

  lemma {:induction false} PlaceOneKeeps(shapes: seq<Shape>, site: Site, site': Site, k: nat)
    requires SiteInv(shapes, site) && k < |shapes| && k !in site.bases
    requires GoodShape(shapes[k]) && Exact(shapes[k]) && k < U16
    requires LayoutSound(Pool(0, shapes[k].stride, shapes[k].count), k)
    requires site.offset + ReservedBytes(shapes[k]) <= |site.mem|
    requires site' == PlaceOne(shapes, site, k)
    ensures SiteInv(shapes, site') && site'.bases.Keys == site.bases.Keys + {k}
    ensures site'.offset <= site.offset + ReservedBytes(shapes[k])
  {
    RequestedBytes(shapes[k]);
    var p := PlaceOneSucceeds(shapes, site, k);
    EndIsSize(p);
    NewPoolKeeps(shapes, site, site', k, p);
  }

  /** Initializing a pool leaves the pools below it alone. */
  lemma {:induction false} KeptBelow(m: seq<Byte>, m': seq<Byte>, p: Pool, q: Pool, index: nat)
    requires q.Fits(|m|) && q.End() + HEADER_BYTES <= p.base && SameOutside(m, m', p.base - 2, p.End())
    requires FreeChain(m, q, q.base, AddressOrder(q)) && HeadersAre(m, q, index)
    ensures FreeChain(m', q, q.base, AddressOrder(q)) && HeadersAre(m', q, index)
  {
    forall b: nat | q.IsBlock(b)
      ensures b + LINK_BYTES <= |m| && ReadHeader(m', b) == ReadHeader(m, b) && ReadLink(m', b) == ReadLink(m, b)
    {
      NextIsBlock(q, b);
      IntervalKept(m, m', p.base - 2, p.End(), b - 2, b + q.stride);
      SameLink(m, m', b);
    }
    var c := AddressOrder(q);
    forall j | 0 <= j < |c|
      ensures LinkIs(m', q, c[j], Follower(c, j))
    {
      assert LinkIs(m, q, c[j], Follower(c, j));
    }
  }

  // ---------------------------------------------------------------- all pools

  /** The flat table of pools: sane shapes, and stride 8 only where it works. */
  predicate GoodShapes(shapes: seq<Shape>) {
    && |shapes| < U16
    && forall i | 0 <= i < |shapes| :: GoodShape(shapes[i]) && LayoutSound(Pool(0, shapes[i].stride, shapes[i].count), i)
  }

  /** The first `n` pools to be constructed ask for all their bytes. */
  predicate ExactUpTo(shapes: seq<Shape>, order: seq<nat>, n: nat)
    requires forall i | 0 <= i < |order| :: order[i] < |shapes|
  {
    n <= |order| && forall i | 0 <= i < n :: Exact(shapes[order[i]])
  }

  /** All of them do, except that the last need only ask for some. */
  predicate RequestsSuffice(shapes: seq<Shape>, order: seq<nat>)
    requires forall i | 0 <= i < |order| :: order[i] < |shapes|
  {
    order != [] ==>
      && ExactUpTo(shapes, order, |order| - 1)
      && PoolBytes(shapes[order[|order| - 1]]) != 0
  }

  lemma {:induction false} TrailKeeps(shapes: seq<Shape>, mem: seq<Byte>, order: seq<nat>, sites: seq<Site>, n: nat)
    requires GoodShapes(shapes) && IsPermutation(order, |shapes|) && Trail(shapes, mem, order, sites)
    requires ArenaSize(shapes) <= |mem| <= ADDRESS_LIMIT && n < |sites| && ExactUpTo(shapes, order, n)
    ensures SiteInv(shapes, sites[n]) && |sites[n].mem| == |mem|
    ensures sites[n].offset <= Sum(Costs(shapes), order[..n]) && sites[n].bases.Keys == Elements(order[..n])
  {
    if n > 0 {
      TrailKeeps(shapes, mem, order, sites, n - 1);
      assert StepAt(shapes, order, sites, n - 1);
      NextKeeps(shapes, order, n - 1, sites[n - 1], sites[n]);
    }
  }

  /** What is reserved for the next pool is still there. */
  lemma {:induction false} RoomStep(shapes: seq<Shape>, order: seq<nat>, n: nat, offset: nat, size: nat)
    requires IsPermutation(order, |shapes|) && n < |order| && ArenaSize(shapes) <= size
    requires offset <= Sum(Costs(shapes), order[..n])
    ensures order[n] < |shapes| && offset + ReservedBytes(shapes[order[n]]) <= Sum(Costs(shapes), order[..n + 1]) <= size
    ensures order[n] !in Elements(order[..n]) && Elements(order[..n + 1]) == Elements(order[..n]) + {order[n]}
  {
    SumStep(Costs(shapes), order, n + 1);
    SumAtMostTotal(Costs(shapes), order[..n + 1]);
  }

  lemma {:induction false} NextKeeps(shapes: seq<Shape>, order: seq<nat>, n: nat, before: Site, site: Site)
    requires GoodShapes(shapes) && IsPermutation(order, |shapes|) && n < |order| && Exact(shapes[order[n]])
    requires SiteInv(shapes, before) && before.offset <= Sum(Costs(shapes), order[..n])
    requires before.bases.Keys == Elements(order[..n]) && ArenaSize(shapes) <= |before.mem|
    requires site == PlaceOne(shapes, before, order[n])
    ensures SiteInv(shapes, site) && site.offset <= Sum(Costs(shapes), order[..n + 1])
    ensures site.bases.Keys == Elements(order[..n + 1]) && |site.mem| == |before.mem|
  {
    RoomStep(shapes, order, n, before.offset, |before.mem|);
    PlaceOneKeeps(shapes, before, site, order[n]);
  }

  lemma {:induction false} SumStep(costs: seq<nat>, order: seq<nat>, n: nat)
    requires 0 < n <= |order| && forall i | 0 <= i < |order| :: order[i] < |costs|
    ensures Sum(costs, order[..n]) == Sum(costs, order[..n - 1]) + costs[order[n - 1]]
    ensures Elements(order[..n]) == Elements(order[..n - 1]) + {order[n - 1]}
  {
    assert order[..n][..n - 1] == order[..n - 1];
    assert order[..n] == order[..n - 1] + [order[n - 1]];
  }

  /** The pools of a finished site, in flat order. */
  function LayoutOf(shapes: seq<Shape>, bases: map<nat, nat>): (L: seq<Pool>)
    requires forall k | 0 <= k < |shapes| :: k in bases
    ensures |L| == |shapes| && forall k | 0 <= k < |shapes| :: L[k] == PoolAt(shapes, bases, k)
  {
    seq(|shapes|, k requires 0 <= k < |shapes| => PoolAt(shapes, bases, k))
  }

  function HeapOf(L: seq<Pool>, mem: seq<Byte>): Heap {
    Heap(mem, seq(|L|, k requires 0 <= k < |L| => L[k].base))
  }

  /** A finished site: every pool on a page of its own, and an intact heap in which all
      blocks are free in address order. */
  ghost predicate Built(shapes: seq<Shape>, site: Site) {
    && site.Site?
    && (forall k | 0 <= k < |shapes| :: k in site.bases && site.bases[k] % PAGE == 0)
    && var L := LayoutOf(shapes, site.bases);
       HeapInv(L, HeapOf(L, site.mem), AllFree(L))
  }

  lemma {:induction false} SiteIsHeap(shapes: seq<Shape>, site: Site)
    requires GoodShapes(shapes) && SiteInv(shapes, site)
    requires forall k | 0 <= k < |shapes| :: k in site.bases
    ensures var L := LayoutOf(shapes, site.bases); HeapInv(L, HeapOf(L, site.mem), AllFree(L))
  {
    var L := LayoutOf(shapes, site.bases);
    var h := HeapOf(L, site.mem);
    forall k | 0 <= k < |L|
      ensures L[k].Fits(|site.mem|) && LayoutSound(L[k], k) && PoolIntact(L, h, AllFree(L), k)
    {
      assert PoolPlaced(shapes, site, k);
    }
  }

  lemma {:induction false} AllPlaced(shapes: seq<Shape>, site: Site, order: seq<nat>, k: nat)
    requires SiteInv(shapes, site) && IsPermutation(order, |shapes|) && k < |shapes|
    requires site.bases.Keys == Elements(order)
    ensures k in site.bases && site.bases[k] % PAGE == 0
  {
    var i := PermutationOnto(order, |shapes|, k);
    assert k in Elements(order);
    assert PoolPlaced(shapes, site, k);
  }

  lemma {:induction false} FinishedSite(shapes: seq<Shape>, site: Site, order: seq<nat>)
    requires GoodShapes(shapes) && IsPermutation(order, |shapes|) && SiteInv(shapes, site)
    requires site.bases.Keys == Elements(order[..|order|])
    ensures Built(shapes, site)
  {
    assert order[..|order|] == order;
    forall k | 0 <= k < |shapes|
      ensures k in site.bases && site.bases[k] % PAGE == 0
    {
      AllPlaced(shapes, site, order, k);
    }
    SiteIsHeap(shapes, site);
  }

  /** The next pool in the order still fits, if those before it asked for all they need. */
  lemma {:induction false} RoomFor(shapes: seq<Shape>, mem: seq<Byte>, order: seq<nat>, sites: seq<Site>, n: nat)
    requires GoodShapes(shapes) && IsPermutation(order, |shapes|) && Trail(shapes, mem, order, sites)
    requires ArenaSize(shapes) <= |mem| <= ADDRESS_LIMIT && n < |sites| && n < |order| && ExactUpTo(shapes, order, n)
    ensures SiteInv(shapes, sites[n]) && |sites[n].mem| == |mem| && order[n] < |shapes|
    ensures sites[n].bases.Keys == Elements(order[..n]) && order[n] !in sites[n].bases
    ensures sites[n].offset + ReservedBytes(shapes[order[n]]) <= |mem|
  {
    TrailKeeps(shapes, mem, order, sites, n);
    RoomStep(shapes, order, n, sites[n].offset, |mem|);
  }

  /** The next pool in the order fits: where it will stand. */
  lemma {:induction false} NextPool(shapes: seq<Shape>, mem: seq<Byte>, order: seq<nat>, sites: seq<Site>, n: nat) returns (p: Pool)
    requires GoodShapes(shapes) && IsPermutation(order, |shapes|) && Trail(shapes, mem, order, sites)
    requires ArenaSize(shapes) <= |mem| <= ADDRESS_LIMIT && n < |sites| && n < |order| && RequestsSuffice(shapes, order)
    ensures sites[n].Site? && sites[n].offset <= |sites[n].mem| == |mem| && order[n] < |shapes| < U16
    ensures p == Pool(p.base, shapes[order[n]].stride, shapes[order[n]].count)
    ensures p.Fits(|mem|) && p.base % 8 == 0
    ensures FetchAt(|mem|, sites[n].offset, PoolBytes(shapes[order[n]]), PAGE, HEADER_BYTES)
            == Fetched(p.base, p.base + PoolBytes(shapes[order[n]]))
    ensures PlaceOne(shapes, sites[n], order[n]) ==
            Site(p.base + PoolBytes(shapes[order[n]]), sites[n].bases[order[n] := p.base],
                 InitBlocks(sites[n].mem, p, order[n], p.count))
  {
    RoomFor(shapes, mem, order, sites, n);
    RequestedBytes(shapes[order[n]]);
    p := PlaceOneSucceeds(shapes, sites[n], order[n]);
  }

  // ---------------------------------------------------------------- when construction succeeds

  lemma {:induction false} BuiltIgnoresOffset(shapes: seq<Shape>, site: Site, whole: Site)
    requires site.Site? && whole.Site? && site.bases == whole.bases && site.mem == whole.mem && Built(shapes, whole)
    ensures Built(shapes, site)
  {}

  /** Up to the offset of the arena, the site is as if the last pool had asked for all. */
  lemma {:induction false} LastPlaced(shapes: seq<Shape>, before: Site, site: Site, k: nat) returns (whole: Site)
    requires SiteInv(shapes, before) && k < |shapes| && k !in before.bases && k < U16
    requires GoodShape(shapes[k]) && LayoutSound(Pool(0, shapes[k].stride, shapes[k].count), k)
    requires PoolBytes(shapes[k]) != 0 && before.offset + ReservedBytes(shapes[k]) <= |before.mem|
    requires site == PlaceOne(shapes, before, k)
    ensures site.Site? && whole.Site? && site.bases == whole.bases && site.mem == whole.mem
    ensures SiteInv(shapes, whole) && whole.bases.Keys == before.bases.Keys + {k}
  {
    var p := PlaceOneSucceeds(shapes, before, k);
    whole := Site(p.End(), site.bases, site.mem);
    NewPoolKeeps(shapes, before, whole, k, p);
  }

  /** The last pool may ask for too little: no pool comes after it, and what it initializes
      lies within the reserved bytes. */
  lemma {:induction false} LastPoolBuilt(shapes: seq<Shape>, order: seq<nat>, n: nat, before: Site, site: Site)
    requires GoodShapes(shapes) && IsPermutation(order, |shapes|) && n + 1 == |order|
    requires SiteInv(shapes, before) && before.bases.Keys == Elements(order[..n]) && order[n] !in before.bases
    requires PoolBytes(shapes[order[n]]) != 0 && before.offset + ReservedBytes(shapes[order[n]]) <= |before.mem|
    requires site == PlaceOne(shapes, before, order[n])
    ensures Built(shapes, site)
  {
    var whole := LastPlaced(shapes, before, site, order[n]);
    SumStep(Costs(shapes), order, n + 1);
    FinishedSite(shapes, whole, order);
    BuiltIgnoresOffset(shapes, site, whole);
  }

  lemma {:induction false} BuildSucceeds(shapes: seq<Shape>, mem: seq<Byte>, order: seq<nat>, sites: seq<Site>)
    requires GoodShapes(shapes) && IsPermutation(order, |shapes|) && WholeTrail(shapes, mem, order, sites)
    requires ArenaSize(shapes) <= |mem| <= ADDRESS_LIMIT && RequestsSuffice(shapes, order)
    ensures Built(shapes, sites[|order|])
  {
    if order == [] {
      TrailKeeps(shapes, mem, order, sites, 0);
      FinishedSite(shapes, sites[0], order);
    } else {
      var n := |order| - 1;
      RoomFor(shapes, mem, order, sites, n);
      assert StepAt(shapes, order, sites, n);
      LastPoolBuilt(shapes, order, n, sites[n], sites[n + 1]);
    }
  }

  /** Where a pool that was placed stands, whether or not its request wrapped. */
  lemma {:induction false} PlacedAt(shapes: seq<Shape>, site: Site, site': Site, k: nat)
    requires k < |shapes| && GoodShape(shapes[k]) && site.Site? && site.offset <= |site.mem|
    requires site' == PlaceOne(shapes, site, k) && site'.Site?
    ensures k in site'.bases && site'.bases == site.bases[k := site'.bases[k]]
    ensures site'.offset == site'.bases[k] + PoolBytes(shapes[k])
    ensures site.offset + HEADER_BYTES <= site'.bases[k] < site.offset + HEADER_BYTES + PAGE
    ensures PoolBytes(shapes[k]) != 0
  {
    AlignUpSpec(site.offset + HEADER_BYTES, PAGE);
  }

  lemma {:induction false} BaseStays(shapes: seq<Shape>, site: Site, next: Site, j: nat, k: nat)
    requires j < |shapes| && j != k && (site.Site? ==> site.offset <= |site.mem|)
    requires next == PlaceOne(shapes, site, j) && next.Site?
    ensures site.Site? && (k in site.bases ==> k in next.bases && next.bases[k] == site.bases[k])
  {}

  lemma {:induction false} NotInSlice(order: seq<nat>, n: nat, m: nat, k: nat)
    requires n < m <= |order| && k !in order[n..m]
    ensures order[m - 1] != k && k !in order[n..m - 1]
  {
    assert order[n..m][m - 1 - n] == order[m - 1];
    assert order[n..m - 1] == order[n..m][..m - 1 - n];
  }

  /** Bases once given stay. */
  lemma {:induction false} BasesStay(shapes: seq<Shape>, mem: seq<Byte>, order: seq<nat>, sites: seq<Site>, n: nat, m: nat, k: nat)
    requires Trail(shapes, mem, order, sites) && n <= m < |sites| && sites[m].Site? && k !in order[n..m]
    ensures sites[n].Site?
    ensures k in sites[n].bases ==> k in sites[m].bases && sites[m].bases[k] == sites[n].bases[k]
    decreases m
  {
    if n < m {
      assert StepAt(shapes, order, sites, m - 1);
      NotInSlice(order, n, m, k);
      BaseStays(shapes, sites[m - 1], sites[m], order[m - 1], k);
      BasesStay(shapes, mem, order, sites, n, m - 1, k);
    }
  }

  lemma {:induction false} OffsetsGrow(shapes: seq<Shape>, mem: seq<Byte>, order: seq<nat>, sites: seq<Site>, n: nat, m: nat)
    requires Trail(shapes, mem, order, sites) && n <= m < |sites| && sites[m].Site?
    requires forall i | 0 <= i < |shapes| :: GoodShape(shapes[i])
    ensures sites[n].Site? && sites[n].offset <= sites[m].offset
    decreases m
  {
    if n < m {
      assert StepAt(shapes, order, sites, m - 1);
      TrailInside(shapes, mem, order, sites, m - 1);
      PlacedAt(shapes, sites[m - 1], sites[m], order[m - 1]);
      OffsetsGrow(shapes, mem, order, sites, n, m - 1);
    }
  }

  /** The base a pool gets, and keeps to the end. */
  lemma {:induction false} BaseOf(shapes: seq<Shape>, mem: seq<Byte>, order: seq<nat>, sites: seq<Site>, n: nat)
    requires GoodShapes(shapes) && IsPermutation(order, |shapes|) && WholeTrail(shapes, mem, order, sites)
    requires n < |order| && sites[|order|].Site?
    ensures sites[n].Site? && sites[n + 1].Site? && order[n] in sites[|order|].bases
    ensures sites[n].offset < sites[|order|].bases[order[n]] < sites[n + 1].offset
  {
    OffsetsGrow(shapes, mem, order, sites, n, |order|);
    OffsetsGrow(shapes, mem, order, sites, n + 1, |order|);
    TrailInside(shapes, mem, order, sites, n);
    assert StepAt(shapes, order, sites, n);
    PlacedAt(shapes, sites[n], sites[n + 1], order[n]);
    assert order[n] !in order[n + 1..];
    BasesStay(shapes, mem, order, sites, n + 1, |order|, order[n]);
  }

  /** Pools lie in the arena in the order in which they are constructed. */
  lemma {:induction false} BasesAscend(shapes: seq<Shape>, mem: seq<Byte>, order: seq<nat>, sites: seq<Site>)
    requires GoodShapes(shapes) && IsPermutation(order, |shapes|) && WholeTrail(shapes, mem, order, sites)
    requires sites[|order|].Site?
    ensures var bases := sites[|order|].bases;
            forall i, j | 0 <= i < j < |order| ::
              order[i] in bases && order[j] in bases && bases[order[i]] < bases[order[j]]
  {
    forall i, j | 0 <= i < j < |order|
      ensures order[i] in sites[|order|].bases && order[j] in sites[|order|].bases
      ensures sites[|order|].bases[order[i]] < sites[|order|].bases[order[j]]
    {
      BaseOf(shapes, mem, order, sites, i);
      BaseOf(shapes, mem, order, sites, j);
      OffsetsGrow(shapes, mem, order, sites, j, |order|);
      OffsetsGrow(shapes, mem, order, sites, i + 1, j);
    }
  }

  /** A pool whose request wrapped reaches past the pool constructed next. */
  lemma {:induction false} WrappedReachesNext(shapes: seq<Shape>, a: Site, b: Site, c: Site, j: nat, k: nat)
    requires j < |shapes| && k < |shapes| && j != k && GoodShape(shapes[j]) && GoodShape(shapes[k]) && !Exact(shapes[j])
    requires a.Site? && a.offset <= |a.mem| && b == PlaceOne(shapes, a, j) && b.Site?
    requires c == PlaceOne(shapes, b, k) && c.Site?
    ensures j in c.bases && k in c.bases && !Apart(PoolAt(shapes, c.bases, j), PoolAt(shapes, c.bases, k))
  {
    PlacedAt(shapes, a, b, j);
    PlacedAt(shapes, b, c, k);
    RequestedBytes(shapes[j]);
    EndIsSize(PoolAt(shapes, c.bases, j));
    EndIsSize(PoolAt(shapes, c.bases, k));
  }

  /** A request that wraps before the last pool spoils the heap, if it gets that far. */
  lemma {:induction false} WrappedSpoils(shapes: seq<Shape>, mem: seq<Byte>, order: seq<nat>, sites: seq<Site>, n: nat)
    requires GoodShapes(shapes) && IsPermutation(order, |shapes|) && WholeTrail(shapes, mem, order, sites)
    requires n + 1 < |order| && !Exact(shapes[order[n]])
    ensures !Built(shapes, sites[|order|])
  {
    var site := sites[|order|];
    if Built(shapes, site) {
      var j, k := order[n], order[n + 1];
      BasesStay(shapes, mem, order, sites, n + 2, |order|, j);
      BasesStay(shapes, mem, order, sites, n + 2, |order|, k);
      assert StepAt(shapes, order, sites, n) && StepAt(shapes, order, sites, n + 1);
      WrappedReachesNext(shapes, sites[n], sites[n + 1], sites[n + 2], j, k);
      PoolsApart(LayoutOf(shapes, site.bases), |site.mem|, j, k);
    }
  }

  /** A last request that wraps to nothing is not served. */
  lemma {:induction false} NothingFetched(shapes: seq<Shape>, mem: seq<Byte>, order: seq<nat>, sites: seq<Site>, n: nat)
    requires WholeTrail(shapes, mem, order, sites) && n + 1 == |order| && PoolBytes(shapes[order[n]]) == 0
    ensures sites[|order|].Failed?
  {
    assert StepAt(shapes, order, sites, n);
  }

  /** Main theorem. Construction in a given order, over an arena of the reserved size, ends
      in an intact heap - page-aligned, disjoint pools, headers equal to flat indices, all
      blocks free in address order - exactly when every pool but the last has a product
      below 2^32 and the last has one that is not a multiple of it. */
  lemma {:induction false} BuiltIff(shapes: seq<Shape>, mem: seq<Byte>, order: seq<nat>, sites: seq<Site>)
    requires GoodShapes(shapes) && IsPermutation(order, |shapes|) && WholeTrail(shapes, mem, order, sites)
    requires ArenaSize(shapes) <= |mem| <= ADDRESS_LIMIT
    ensures Built(shapes, sites[|order|]) <==> RequestsSuffice(shapes, order)
  {
    if RequestsSuffice(shapes, order) {
      BuildSucceeds(shapes, mem, order, sites);
    } else if !ExactUpTo(shapes, order, |order| - 1) {
      var n :| 0 <= n < |order| - 1 && !Exact(shapes[order[n]]);
      WrappedSpoils(shapes, mem, order, sites, n);
    } else {
      NothingFetched(shapes, mem, order, sites, |order| - 1);
    }
  }

  /** Products below 2^32 suffice for every order of construction. */
  lemma {:induction false} ExactSuffices(shapes: seq<Shape>, order: seq<nat>)
    requires GoodShapes(shapes) && IsPermutation(order, |shapes|) && forall i | 0 <= i < |shapes| :: Exact(shapes[i])
    ensures RequestsSuffice(shapes, order)
  {
    if order != [] { RequestedBytes(shapes[order[|order| - 1]]); }
  }
}
