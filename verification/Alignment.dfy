/** Which alignment a served block really has. */
module Alignment {
  import opened Bits
  import opened Memory
  import opened Pools
  import opened Lookup

  ghost predicate Ascending(s: seq<nat>) {
    forall i, j | 0 <= i < j < |s| :: s[i] < s[j]
  }

  /** Fallback never serves a block that is too small, provided the flat table ascends:
      payload and header of the request fit into every stride from the first choice on. */
  lemma {:induction false} FallbackFits(flat: seq<nat>, rawSize: nat, alignment: nat, j: nat)
    requires Ascending(flat) && FirstAtLeast(flat, Need(rawSize, alignment)) <= j < |flat|
    ensures rawSize <= flat[j] - HEADER_BYTES
  {
    var i := FirstAtLeast(flat, Need(rawSize, alignment));
    AlignUpSpec(rawSize + HEADER_BYTES, Max(ALIGNMENT_QUANTUM, alignment));
    if i < j { assert flat[i] < flat[j]; }
  }

  lemma {:induction false} BlockAligned(p: Pool, a: nat, i: nat)
    requires a > 0 && p.base % a == 0 && p.stride % a == 0
    ensures p.Block(i) % a == 0
  {
    if i > 0 {
      BlockAligned(p, a, i - 1);
      ModSum(p.Block(i - 1), p.stride, a);
    }
  }

  /** All blocks of a pool with an aligned base are aligned exactly when the alignment
      divides the stride (or there is a single block). */
  lemma {:induction false} PoolAlignedIff(p: Pool, a: nat)
    requires a > 0 && p.base % a == 0 && p.stride > 0 && p.count >= 1
    ensures (forall b: nat | p.IsBlock(b) :: b % a == 0) <==> p.stride % a == 0 || p.count == 1
  {
    if p.stride % a == 0 || p.count == 1 {
      forall b: nat | p.IsBlock(b)
        ensures b % a == 0
      {
        var i := BlockIndex(p, b);
        if p.stride % a == 0 { BlockAligned(p, a, i); }
      }
    } else {
      BlockInPool(p, 1);
      BlockBounds(p, 0);
      var b := p.Block(1);
      assert b == p.base + p.stride && p.IsBlock(b);
      if b % a == 0 { ModSum(b, p.base, a); }
    }
  }

  /** The range that serves `need` had to raise it to its smallest stride. */
  predicate Clamped(ranges: seq<Range>, need: nat)
    requires forall r <- ranges :: r.strideStep > 0
  {
    ranges != [] &&
    (if AlignUp(need, ranges[0].strideStep) > ranges[0].strideMax then Clamped(ranges[1..], need)
     else AlignUp(need, ranges[0].strideStep) < ranges[0].strideMin)
  }

  /** That is: the need was found at the first stride of a range, without being rounded
      up as far as that. */
  lemma {:induction false} ClampedIff(ranges: seq<Range>, base: nat, need: nat)
    requires ValidTable(ranges, base) && FirstAtLeast(Flat(ranges), need) < |Flat(ranges)|
    ensures forall r <- ranges :: r.strideStep > 0
    ensures Clamped(ranges, need) <==>
            exists i | 0 <= i < |ranges| ::
              && base + FirstAtLeast(Flat(ranges), need) == ranges[i].baseProxyIndex
              && AlignUp(need, ranges[i].strideStep) < ranges[i].strideMin
    decreases |ranges|
  {
    TableSteps(ranges, base);
    var r, rest := ranges[0], ranges[1..];
    var stride := AlignUp(need, r.strideStep);
    RangeSearch(r, need);
    FirstInConcat(Strides(r), Flat(rest), need);
    forall i | 1 <= i < |ranges|
      ensures ranges[i].baseProxyIndex >= base + r.strideCount
    {
      BasesAscend(rest, base + r.strideCount, i - 1);
    }
    if stride > r.strideMax {
      ClampedIff(rest, base + r.strideCount, need);
      assert forall i | 0 <= i < |rest| :: rest[i] == ranges[i + 1];
    }
  }

  lemma {:induction false} BasesAscend(ranges: seq<Range>, base: nat, i: nat)
    requires ValidTable(ranges, base) && i < |ranges|
    ensures ranges[i].baseProxyIndex >= base
  {
    if i > 0 { BasesAscend(ranges[1..], base + ranges[0].strideCount, i - 1); }
  }

  /** A power of two that divides a size divides it after rounding up to any step that
      is a power of two. */
  lemma {:induction false} RoundingKeepsAlignment(need: nat, step: nat, a: nat)
    requires IsPow2(a) && IsPow2(step) && need % a == 0
    ensures AlignUp(need, step) % a == 0
  {
    AlignUpSpec(need, step);
    if step <= a {
      Pow2Divides(step, a);
      ModTrans(need, step, a);
      AlignUpLeast(need, step, need);
    } else {
      Pow2Divides(a, step);
      ModTrans(AlignUp(need, step), a, step);
    }
  }

  lemma {:induction false} StridesAligned(r: Range, a: nat, i: nat)
    requires ValidRange(r) && i < r.strideCount && a > 0 && r.strideStep % a == 0
    ensures Strides(r)[i] % a == 0
  {
    ModTrans(r.strideMin, a, r.strideStep);
    ModOfMultiple(i, a, r.strideStep);
    ModSum(r.strideMin, i * r.strideStep, a);
  }

  /** If the alignment divides every step, it divides every stride: clamping and
      fallback are then harmless. */
  lemma {:induction false} AllStridesAligned(ranges: seq<Range>, base: nat, a: nat, i: nat)
    requires ValidTable(ranges, base) && i < |Flat(ranges)| && a > 0
    requires forall r <- ranges :: r.strideStep % a == 0
    ensures Flat(ranges)[i] % a == 0
    decreases |ranges|
  {
    if ranges != [] {
      var r := ranges[0];
      if i < r.strideCount {
        StridesAligned(r, a, i);
      } else {
        AllStridesAligned(ranges[1..], base + r.strideCount, a, i - r.strideCount);
      }
    }
  }

  /** The first choice is aligned as requested whenever no range had to clamp. */
  lemma {:induction false} FirstChoiceAligned(ranges: seq<Range>, base: nat, need: nat, a: nat)
    requires ValidTable(ranges, base) && IsPow2(a) && need % a == 0
    requires FirstAtLeast(Flat(ranges), need) < |Flat(ranges)|
    ensures forall r <- ranges :: r.strideStep > 0
    ensures !Clamped(ranges, need) ==> Flat(ranges)[FirstAtLeast(Flat(ranges), need)] % a == 0
    decreases |ranges|
  {
    TableSteps(ranges, base);
    if ranges != [] {
      var r := ranges[0];
      var stride := AlignUp(need, r.strideStep);
      RangeSearch(r, need);
      FirstInConcat(Strides(r), Flat(ranges[1..]), need);
      if stride > r.strideMax {
        FirstChoiceAligned(ranges[1..], base + r.strideCount, need, a);
      } else if stride >= r.strideMin {
        RoundingKeepsAlignment(need, r.strideStep, a);
        FoundStride(r, need);
      }
    }
  }

  lemma {:induction false} FoundStride(r: Range, need: nat)
    requires ValidRange(r) && r.strideMin <= AlignUp(need, r.strideStep) <= r.strideMax
    ensures FirstAtLeast(Strides(r), need) < r.strideCount
    ensures Strides(r)[FirstAtLeast(Strides(r), need)] == AlignUp(need, r.strideStep)
  {
    var stride := AlignUp(need, r.strideStep);
    RangeSearch(r, need);
    AlignUpSpec(need, r.strideStep);
    ModSum(stride, r.strideMin, r.strideStep);
    DivTimes(stride - r.strideMin, r.strideStep);
  }

  lemma {:induction false} PageAligned(base: nat, a: nat)
    requires base % MAX_ALIGNMENT == 0 && IsPow2(a) && a <= MAX_ALIGNMENT
    ensures base % a == 0
  {
    Pow2Add(6, 6);
    assert Pow2(6) == 64;
    assert MAX_ALIGNMENT == Pow2(12);
    Pow2Divides(a, MAX_ALIGNMENT);
    ModTrans(base, a, MAX_ALIGNMENT);
  }

  lemma {:induction false} TableOfOne(r: Range)
    requires ValidRange(r) && r.baseProxyIndex == 0 && r.strideCount <= MAX_STRIDE_COUNT
    ensures ValidTable([r], 0) && Flat([r]) == Strides(r)
  {
    assert [r][1..] == [];
  }
}
