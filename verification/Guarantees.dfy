/** From the declaration of a metaset to what its callers can rely on. */
module Guarantees {
  import opened Bits
  import opened Memory
  import opened Pools
  import opened Heaps
  import opened HeapRuns
  import opened Lookup
  import opened Alignment
  import opened Metapool
  import opened Metaset
  import opened StrideRanges
  import opened Build

  /** Stride and block count of every pool of one metapool, and of the whole set. */
  function ShapesOfOne(c: Config): (s: seq<Shape>)
    requires Valid(c)
    ensures |s| == StrideCount(c)
  {
    seq(StrideCount(c), i requires 0 <= i < StrideCount(c) => Shape(StrideAt(c, i), BlockCount(c, i)))
  }

  function ShapesOf(cs: seq<Config>): seq<Shape>
    requires AllValid(cs)
  {
    if cs == [] then [] else ShapesOfOne(cs[0]) + ShapesOf(cs[1..])
  }

  /** `ranges` carries the strides of `cs`, metapool by metapool. */
  ghost predicate AllMatch(cs: seq<Config>, ranges: seq<Range>)
    requires AllValid(cs)
  {
    |ranges| == |cs| && forall i | 0 <= i < |cs| :: Matches(ranges[i], cs[i])
  }

  /** Two tables of pools side by side, strides against strides. */
  predicate SameStrides(shapes: seq<Shape>, flat: seq<nat>) {
    |flat| == |shapes| && forall k | 0 <= k < |shapes| :: shapes[k].stride == flat[k]
  }

  lemma {:induction false} SameStridesConcat(s: seq<Shape>, t: seq<Shape>, u: seq<nat>, v: seq<nat>)
    requires SameStrides(s, u) && SameStrides(t, v)
    ensures SameStrides(s + t, u + v)
  {}

  lemma {:induction false} OneMatches(c: Config, r: Range)
    requires Valid(c) && Matches(r, c)
    ensures SameStrides(ShapesOfOne(c), Strides(r))
  {}

  /** The pools that get built have exactly the strides that lookup searches. */
  lemma {:induction false} ShapesMatchTable(cs: seq<Config>, ranges: seq<Range>)
    requires AllValid(cs) && AllMatch(cs, ranges)
    ensures SameStrides(ShapesOf(cs), Flat(ranges))
    decreases |cs|
  {
    if cs != [] {
      OneMatches(cs[0], ranges[0]);
      ShapesMatchTable(cs[1..], ranges[1..]);
      SameStridesConcat(ShapesOfOne(cs[0]), ShapesOf(cs[1..]), Strides(ranges[0]), Flat(ranges[1..]));
    }
  }

  lemma {:induction false} ShapesFrom(cs: seq<Config>, n: nat)
    requires AllValid(cs) && n <= |cs|
    ensures Before(StrideCounts(cs), n) <= |ShapesOf(cs)|
    ensures ShapesOf(cs)[Before(StrideCounts(cs), n)..] == ShapesOf(cs[n..])
  {
    if n == 0 {
      assert cs[0..] == cs;
    } else {
      ShapesFrom(cs, n - 1);
      var b := Before(StrideCounts(cs), n - 1);
      assert cs[n - 1..][0] == cs[n - 1] && cs[n - 1..][1..] == cs[n..];
      SkipFront(ShapesOf(cs), b, ShapesOfOne(cs[n - 1]), ShapesOf(cs[n..]));
    }
  }

  lemma {:induction false} SkipFront(s: seq<Shape>, b: nat, t: seq<Shape>, u: seq<Shape>)
    requires b <= |s| && s[b..] == t + u
    ensures b + |t| <= |s| && s[b + |t|..] == u
  {
    assert s[b + |t|..] == s[b..][|t|..];
  }

  /** The flat table, pool by pool: stride and block count of stride `i` of metapool `j`
      stand behind those of the metapools before, and nothing else is in it. */
  lemma {:induction false} ShapeAt(cs: seq<Config>, j: nat, i: nat)
    requires AllValid(cs) && j < |cs| && i < StrideCount(cs[j])
    ensures |ShapesOf(cs)| == Before(StrideCounts(cs), |cs|)
    ensures var f := Before(StrideCounts(cs), j) + i;
            f < |ShapesOf(cs)| && ShapesOf(cs)[f] == Shape(cs[j].pivots[0] + i * cs[j].step, BlockCount(cs[j], i))
  {
    ShapesFrom(cs, |cs|);
    assert cs[|cs|..] == [];
    ShapeInRest(cs, j, i);
  }

  lemma {:induction false} ShapeInRest(cs: seq<Config>, j: nat, i: nat)
    requires AllValid(cs) && j < |cs| && i < StrideCount(cs[j])
    ensures var f := Before(StrideCounts(cs), j) + i;
            f < |ShapesOf(cs)| && ShapesOf(cs)[f] == Shape(cs[j].pivots[0] + i * cs[j].step, BlockCount(cs[j], i))
  {
    ShapesFrom(cs, j);
    assert cs[j..][0] == cs[j];
    assert ShapesOf(cs[j..])[i] == ShapesOfOne(cs[j])[i];
    assert ShapesOf(cs)[Before(StrideCounts(cs), j)..][i] == ShapesOf(cs)[Before(StrideCounts(cs), j) + i];
  }

  lemma {:induction false} ShapeFrom(cs: seq<Config>, k: nat) returns (j: nat, i: nat)
    requires AllValid(cs) && k < |ShapesOf(cs)|
    ensures j < |cs| && i < StrideCount(cs[j]) && ShapesOf(cs)[k] == Shape(StrideAt(cs[j], i), BlockCount(cs[j], i))
    ensures k > 0 ==> j > 0 || i > 0
    decreases |cs|
  {
    if k < StrideCount(cs[0]) {
      j, i := 0, k;
    } else {
      j, i := ShapeFrom(cs[1..], k - StrideCount(cs[0]));
      j := j + 1;
    }
  }

  /** Strides are multiples of 8 that start at 8 or more, and no pool is empty. */
  lemma {:induction false} ShapeSane(c: Config, i: nat)
    requires Valid(c) && IsPow2(c.step)
    ensures StrideAt(c, i) >= 8 && StrideAt(c, i) % 8 == 0 && BlockCount(c, i) >= 1
  {
    assert c.pivots[0] in c.pivots;
    assert Pow2(3) == 8;
    Pow2Divides(8, c.step);
    ModOfMultiple(i, 8, c.step);
    ModSum(c.pivots[0], i * c.step, 8);
    NoPoolEmpty(c, i);
  }

  /** Metapools declared in ascending order of their smallest strides. */
  ghost predicate DeclaredAscending(cs: seq<Config>)
    requires AllValid(cs)
  {
    forall j, k | 0 <= j < k < |cs| :: cs[j].pivots[0] < cs[k].pivots[0]
  }

  /** Only the first pool of the table can have stride 8. */
  lemma {:induction false} LaterStride(cs: seq<Config>, j: nat, i: nat)
    requires AllValid(cs) && PowerSteps(cs) && DeclaredAscending(cs)
    requires j < |cs| && i < StrideCount(cs[j]) && (j > 0 || i > 0)
    ensures StrideAt(cs[j], i) >= 16
  {
    ShapeSane(cs[j], i);
    assert cs[j].pivots[0] in cs[j].pivots && cs[0].pivots[0] in cs[0].pivots;
    MulMono(if i > 0 then 1 else 0, i, cs[j].step);
  }

  /** A set whose metapools are declared in ascending order is fit for construction. */
  lemma {:induction false} SetIsBuildable(cs: seq<Config>)
    requires AllValid(cs) && PowerSteps(cs) && DeclaredAscending(cs) && |ShapesOf(cs)| <= MAX_STRIDE_COUNT
    ensures GoodShapes(ShapesOf(cs))
  {
    forall k | 0 <= k < |ShapesOf(cs)|
      ensures GoodShape(ShapesOf(cs)[k])
      ensures LayoutSound(Pool(0, ShapesOf(cs)[k].stride, ShapesOf(cs)[k].count), k)
    {
      var j, i := ShapeFrom(cs, k);
      ShapeSane(cs[j], i);
      if k > 0 { LaterStride(cs, j, i); }
    }
  }

  /** Main theorem. A request on an intact heap over an ascending table: it is turned
      down at lookup exactly when no stride is large enough for payload and header; it
      is exhausted exactly when every pool that is large enough is empty; otherwise it
      gets a block that was free, is in use now, and holds the whole payload. */
  lemma {:induction false} RequestServed(ranges: seq<Range>, L: seq<Pool>, h: Heap, cs: seq<seq<nat>>, size: nat, alignment: nat, k: nat)
    requires ValidTable(ranges, 0) && ValidAlignment(alignment) && SizeInRange(ranges, size, alignment)
    requires Ascending(Flat(ranges)) && |L| == |Flat(ranges)| <= MAX_STRIDE_COUNT
    requires forall i | 0 <= i < |L| :: L[i].stride == Flat(ranges)[i]
    requires HeapInv(L, h, cs) && StepsFit(ranges) && k == Scan(ranges, AlignedSize(size, alignment))
    ensures k >= |L| <==> forall i | 0 <= i < |L| :: L[i].stride < Need(size, alignment)
    ensures k < |L| ==>
              && HeadsReadable(h)
              && (Take(h, k).1 == 0 <==> forall i | 0 <= i < |L| && L[i].stride >= Need(size, alignment) :: cs[i] == [])
              && (Take(h, k).1 != 0 ==>
                    var j := FirstAvailable(h.heads, k);
                    && j < |L| && Live(L, cs[j := if cs[j] == [] then [] else cs[j][1..]], j, Take(h, k).1)
                    && !Live(L, cs, j, Take(h, k).1)
                    && size + HEADER_BYTES <= L[j].stride)
  {
    LookupIsSearch(ranges, size, alignment);
    var flat, need := Flat(ranges), Need(size, alignment);
    assert k == TableIndex(flat, 0, need);
    if k < |L| {
      assert k == FirstAtLeast(flat, need);
      TakeRefines(L, h, cs, k);
      AdequateFrom(flat, need, k);
      var j := FirstAvailable(h.heads, k);
      if j < |L| { FallbackFits(flat, size, alignment, j); }
    }
  }

  /** In an ascending table the strides that are large enough are those from the first
      choice on. */
  lemma {:induction false} AdequateFrom(flat: seq<nat>, need: nat, k: nat)
    requires Ascending(flat) && k == FirstAtLeast(flat, need)
    ensures forall i | 0 <= i < |flat| :: flat[i] >= need <==> i >= k
  {
    forall i | k < i < |flat|
      ensures flat[i] >= need
    {
      assert flat[k] < flat[i];
    }
  }
}
