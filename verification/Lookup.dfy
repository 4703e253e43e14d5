/** `AllocatorCore::lookup`: from size and alignment to an index of the flat table of
    strides, by masks and shifts on 32-bit words. */
module Lookup {
  import opened Bits
  import opened Memory

  const ALIGNMENT_QUANTUM: nat := 8
  const MAX_ALIGNMENT: nat := 4096
  const MAX_STRIDE: nat := 0x4000_0000
  const MAX_STEP: nat := 0x2000_0000
  const MAX_STRIDE_COUNT: nat := 4096
  const NO_MATCH: nat := 0xFFFF

  datatype Range = Range(strideMin: nat, strideMax: nat, strideStep: nat,
                         strideCount: nat, strideShift: nat, baseProxyIndex: nat)

  /** What the metaset guarantees of each of its ranges. */
  ghost predicate ValidRange(r: Range) {
    && 8 <= r.strideStep <= MAX_STEP && r.strideStep == Pow2(r.strideShift)
    && 8 <= r.strideMin <= r.strideMax <= MAX_STRIDE
    && r.strideMin % r.strideStep == 0 && r.strideMax % r.strideStep == 0
    && r.strideCount == (r.strideMax - r.strideMin) / r.strideStep + 1
  }

  /** Each range starts in the flat table where the one before it ends. */
  ghost predicate ValidTable(ranges: seq<Range>, base: nat) {
    ranges == [] ||
    (ValidRange(ranges[0]) && ranges[0].baseProxyIndex == base
     && base + ranges[0].strideCount <= MAX_STRIDE_COUNT
     && ValidTable(ranges[1..], base + ranges[0].strideCount))
  }

  /** The strides of one range, and of the whole table. */
  function Strides(r: Range): (s: seq<nat>)
    ensures |s| == r.strideCount
  {
    seq(r.strideCount, i requires 0 <= i < r.strideCount => r.strideMin + i * r.strideStep)
  }

  function Flat(ranges: seq<Range>): seq<nat> {
    if ranges == [] then [] else Strides(ranges[0]) + Flat(ranges[1..])
  }

  // ---------------------------------------------------------------- the code

  function Max(a: nat, b: nat): nat { if a > b then a else b }

  /** `(x + p - 1) & ~(p - 1)` on 32-bit words, wrap-around included. */
  function RoundUp32(x: nat, p: nat): nat
    requires 0 < p <= U32
  {
    And(Add32(x, p - 1), Not32(p - 1))
  }

  /** The `aligned` of the code. */
  function AlignedSize(rawSize: nat, alignment: nat): nat
    requires alignment < U32
  {
    RoundUp32(Add32(rawSize, HEADER_BYTES), Max(ALIGNMENT_QUANTUM, alignment))
  }

  /** The offset of the code, selected by a mask of all ones or all zeros. */
  function MaskedOffset(r: Range, stride: nat): nat {
    And(Sub32(stride, r.strideMin), if stride >= r.strideMin then U32 - 1 else 0)
  }

  function IndexIn(r: Range, stride: nat): nat {
    (r.baseProxyIndex + Shr(MaskedOffset(r, stride), r.strideShift)) % U16
  }

  predicate StepsFit(ranges: seq<Range>) {
    forall r <- ranges :: 0 < r.strideStep <= U32
  }

  /** The scan over the ranges. */
  function Scan(ranges: seq<Range>, aligned: nat): nat
    requires StepsFit(ranges)
  {
    if ranges == [] then NO_MATCH
    else
      var stride := RoundUp32(aligned, ranges[0].strideStep);
      if stride > ranges[0].strideMax then Scan(ranges[1..], aligned) else IndexIn(ranges[0], stride)
  }

  /** The loop body: does this range serve the size, and from which index? */
  method TryRange(range: Range, aligned: nat) returns (hit: bool, proxyIndex: nat)
    requires 0 < range.strideStep <= U32
    ensures hit <==> RoundUp32(aligned, range.strideStep) <= range.strideMax
    ensures hit ==> proxyIndex == IndexIn(range, RoundUp32(aligned, range.strideStep))
  {
    var mask := range.strideStep - 1;
    var stride := And(Add32(aligned, mask), Not32(mask));
    if stride > range.strideMax {
      return false, 0;
    }
    var offset := And(Sub32(stride, range.strideMin), if stride >= range.strideMin then U32 - 1 else 0);
    var flIndex := Shr(offset, range.strideShift);
    return true, (range.baseProxyIndex + flIndex) % U16;
  }

  method LookupIndex(ranges: seq<Range>, rawSize: nat, alignment: nat) returns (proxyIndex: nat)
    requires rawSize > 0 && alignment < U32
    requires StepsFit(ranges)
    ensures proxyIndex == Scan(ranges, AlignedSize(rawSize, alignment))
  {
    var allocSize := Add32(rawSize, HEADER_BYTES);
    var alignTo := Max(ALIGNMENT_QUANTUM, alignment);
    var aligned := And(Add32(allocSize, alignTo - 1), Not32(alignTo - 1));
    var i := 0;
    while i < |ranges|
      invariant 0 <= i <= |ranges|
      invariant Scan(ranges, AlignedSize(rawSize, alignment)) == Scan(ranges[i..], aligned)
    {
      assert ranges[i..][0] == ranges[i] && ranges[i..][1..] == ranges[i + 1..];
      var hit, index := TryRange(ranges[i], aligned);
      if hit {
        return index;
      }
      i := i + 1;
    }
    proxyIndex := NO_MATCH;
  }

  // ---------------------------------------------------------------- what it should find

  /** The size a block must have: payload and header, rounded up to the alignment. */
  function Need(rawSize: nat, alignment: nat): nat {
    AlignUp(rawSize + HEADER_BYTES, Max(ALIGNMENT_QUANTUM, alignment))
  }

  /** For every power of two the need is the least number that has room for payload and
      header and is divisible by both the quantum and the alignment asked for. */
  lemma {:induction false} NeedIsLeast(rawSize: nat, alignment: nat)
    requires IsPow2(alignment)
    ensures var need := Need(rawSize, alignment);
            && need >= rawSize + 2 && need % 8 == 0 && need % alignment == 0
            && forall n: nat | n >= rawSize + 2 && n % 8 == 0 && n % alignment == 0 :: need <= n
  {
    assert Pow2(3) == 8;
    var a := if alignment > 8 then alignment else 8;
    AlignUpSpec(rawSize + 2, a);
    Pow2Divides(8, a);
    Pow2Divides(alignment, a);
    ModTrans(Need(rawSize, alignment), 8, a);
    ModTrans(Need(rawSize, alignment), alignment, a);
    forall n: nat | n >= rawSize + 2 && n % 8 == 0 && n % alignment == 0
      ensures Need(rawSize, alignment) <= n
    {
      AlignUpLeast(rawSize + 2, a, n);
    }
  }

  /** Below the quantum any alignment will do, and changes nothing. */
  lemma {:induction false} SmallAlignment(rawSize: nat, alignment: nat)
    requires alignment <= 8
    ensures Need(rawSize, alignment) == Need(rawSize, 1) && ValidAlignment(alignment)
  {}

  /** The alignments lookup is proved for. */
  lemma {:induction false} ValidAlignmentIff(alignment: nat)
    ensures ValidAlignment(alignment) <==> alignment <= 8 || exists k: nat | k <= 12 :: alignment == Pow2(k)
  {
    assert Pow2(3) == 8;
    Pow2Add(6, 6);
    assert Pow2(6) == 64;
    forall k: nat | alignment == Pow2(k)
      ensures alignment <= 4096 <==> k <= 12
    {
      if k <= 12 { Pow2Mono(k, 12); } else { Pow2Mono(13, k); }
    }
  }

  /** Plain linear search for the first stride that is large enough. */
  function FirstAtLeast(s: seq<nat>, need: nat): (i: nat)
    ensures i <= |s|
    ensures i < |s| ==> s[i] >= need
    ensures forall j | 0 <= j < i :: s[j] < need
  {
    if s == [] || s[0] >= need then 0 else 1 + FirstAtLeast(s[1..], need)
  }

  lemma {:induction false} FirstAtLeastUnique(s: seq<nat>, need: nat, i: nat)
    requires i <= |s| && (i < |s| ==> s[i] >= need) && forall j | 0 <= j < i :: s[j] < need
    ensures FirstAtLeast(s, need) == i
  {}

  lemma {:induction false} FirstInConcat(s: seq<nat>, t: seq<nat>, need: nat)
    ensures FirstAtLeast(s + t, need) ==
            if FirstAtLeast(s, need) < |s| then FirstAtLeast(s, need) else |s| + FirstAtLeast(t, need)
  {
    var i, j := FirstAtLeast(s, need), FirstAtLeast(t, need);
    if i < |s| {
      FirstAtLeastUnique(s + t, need, i);
    } else {
      forall k | 0 <= k < |s| + j
        ensures (s + t)[k] < need
      {}
      FirstAtLeastUnique(s + t, need, |s| + j);
    }
  }

  // ---------------------------------------------------------------- one range

  lemma {:induction false} RangeFits(r: Range)
    requires ValidRange(r)
    ensures r.strideMin + (r.strideCount - 1) * r.strideStep == r.strideMax
  {
    ModSum(r.strideMax, r.strideMin, r.strideStep);
    DivTimes(r.strideMax - r.strideMin, r.strideStep);
  }

  /** With `stride` the need rounded up to the step: the range serves it exactly when
      `stride <= strideMax`, from the first of its strides that is large enough. */
  lemma {:induction false} RangeSearch(r: Range, need: nat)
    requires ValidRange(r)
    ensures var stride := AlignUp(need, r.strideStep);
            FirstAtLeast(Strides(r), need) ==
            if stride > r.strideMax then r.strideCount
            else if stride < r.strideMin then 0
            else (stride - r.strideMin) / r.strideStep
    ensures AlignUp(need, r.strideStep) <= r.strideMax ==> FirstAtLeast(Strides(r), need) < r.strideCount
  {
    var step, stride := r.strideStep, AlignUp(need, r.strideStep);
    AlignUpSpec(need, step);
    RangeFits(r);
    if stride > r.strideMax {
      forall j | 0 <= j < r.strideCount
        ensures Strides(r)[j] < need
      {
        StrideBelow(r, need, j);
      }
      FirstAtLeastUnique(Strides(r), need, r.strideCount);
    } else if stride < r.strideMin {
      FirstAtLeastUnique(Strides(r), need, 0);
    } else {
      var i := (stride - r.strideMin) / step;
      ModSum(stride, r.strideMin, step);
      DivTimes(stride - r.strideMin, step);
      assert r.strideMin + i * step == stride;
      IndexBelow(i, r.strideCount, step, stride - r.strideMin, r.strideMax - r.strideMin);
      forall j | 0 <= j < i
        ensures Strides(r)[j] < need
      {
        MulMono(j + 1, i, step);
        assert (j + 1) * step == j * step + step;
      }
      FirstAtLeastUnique(Strides(r), need, i);
    }
  }

  lemma {:induction false} IndexBelow(i: nat, n: nat, step: nat, x: nat, top: nat)
    requires step > 0 && n > 0 && i * step == x <= top == (n - 1) * step
    ensures i < n
  {
    assert step * (n - 1 - i) == (n - 1) * step - i * step;
    ProductAboveNegated(step, n - 1 - i);
  }

  lemma {:induction false} StrideBelow(r: Range, need: nat, j: nat)
    requires ValidRange(r) && j < r.strideCount && AlignUp(need, r.strideStep) > r.strideMax
    ensures r.strideMin + j * r.strideStep < need
  {
    var s := r.strideMin + j * r.strideStep;
    RangeFits(r);
    MulMono(j, r.strideCount - 1, r.strideStep);
    ModOfMultiple(j, r.strideStep, r.strideStep);
    ModSum(r.strideMin, j * r.strideStep, r.strideStep);
    if s >= need { AlignUpLeast(need, r.strideStep, s); }
  }

  // ---------------------------------------------------------------- the scan is the search

  lemma {:induction false} StepIsPow2(r: Range)
    requires ValidRange(r)
    ensures IsPow2(r.strideStep)
  {}

  /** Without wrap-around, rounding a word is rounding a number. */
  lemma {:induction false} RoundUpExact(x: nat, p: nat)
    requires IsPow2(p) && x + p - 1 < U32
    ensures RoundUp32(x, p) == AlignUp(x, p)
  {
    RoundUpMask(x, p);
  }

  /** With wrap-around the rounded word collapses to zero. */
  lemma {:induction false} RoundUpWraps(x: nat, p: nat)
    requires IsPow2(p) && p <= U32 && x < U32 <= x + p - 1
    ensures RoundUp32(x, p) == 0
  {
    var y := x + p - 1 - U32;
    DivModUnique(x + p - 1, U32, 1, y);
    assert Add32(x, p - 1) == y < p;
    ClearLowBits(y, p);
    DivModUnique(y, p, 0, y);
  }

  lemma {:induction false} AllOnes(x: nat)
    requires x < U32
    ensures And(x, U32 - 1) == x
  {
    Pow2Of32();
    MaskIsMod(x, 32);
    DivModUnique(x, U32, 0, x);
  }

  /** A multiple of the step inside a range is a whole number of steps above its start. */
  lemma {:induction false} OffsetFits(r: Range, stride: nat)
    requires ValidRange(r) && r.strideMin <= stride <= r.strideMax && stride % r.strideStep == 0
    ensures (stride - r.strideMin) / r.strideStep < r.strideCount
  {
    var offset := stride - r.strideMin;
    RangeFits(r);
    ModSum(stride, r.strideMin, r.strideStep);
    DivTimes(offset, r.strideStep);
    IndexBelow(offset / r.strideStep, r.strideCount, r.strideStep, offset, r.strideMax - r.strideMin);
  }

  lemma {:induction false} MaskedOffsetExact(r: Range, stride: nat)
    requires ValidRange(r) && stride < U32
    ensures MaskedOffset(r, stride) == if stride < r.strideMin then 0 else stride - r.strideMin
  {
    if stride >= r.strideMin {
      assert Sub32(stride, r.strideMin) == stride - r.strideMin;
      AllOnes(stride - r.strideMin);
    }
  }

  /** The assert in the loop never fires: the masked offset is a whole number of steps. */
  lemma {:induction false} OffsetOnStep(r: Range, stride: nat)
    requires ValidRange(r) && stride % r.strideStep == 0 && stride < U32
    ensures And(MaskedOffset(r, stride), r.strideStep - 1) == 0
  {
    MaskedOffsetExact(r, stride);
    if stride >= r.strideMin {
      MaskIsMod(stride - r.strideMin, r.strideShift);
      ModSum(stride, r.strideMin, r.strideStep);
    }
  }

  lemma {:induction false} ShiftedOffset(r: Range, offset: nat)
    requires ValidRange(r)
    ensures Shr(offset, r.strideShift) == offset / r.strideStep
  {
    ShiftIsDiv(offset, r.strideShift);
  }

  lemma {:induction false} SmallWord(x: nat)
    requires x < U16
    ensures x % U16 == x
  {}

  /** Inside a range the masked offset and the shift give the search's index. */
  lemma {:induction false} IndexInExact(r: Range, stride: nat)
    requires ValidRange(r) && r.baseProxyIndex + r.strideCount <= MAX_STRIDE_COUNT
    requires stride <= r.strideMax && stride % r.strideStep == 0
    ensures IndexIn(r, stride) ==
            r.baseProxyIndex + (if stride < r.strideMin then 0 else (stride - r.strideMin) / r.strideStep)
    ensures IndexIn(r, stride) < r.baseProxyIndex + r.strideCount
  {
    var offset := if stride < r.strideMin then 0 else stride - r.strideMin;
    MaskedOffsetExact(r, stride);
    ShiftedOffset(r, offset);
    StepsInside(r, stride, offset);
    SmallWord(r.baseProxyIndex + offset / r.strideStep);
  }

  lemma {:induction false} StepsInside(r: Range, stride: nat, offset: nat)
    requires ValidRange(r) && stride <= r.strideMax && stride % r.strideStep == 0
    requires offset == if stride < r.strideMin then 0 else stride - r.strideMin
    ensures offset / r.strideStep < r.strideCount
    ensures stride < r.strideMin ==> offset / r.strideStep == 0
  {
    if stride >= r.strideMin { OffsetFits(r, stride); } else { DivModUnique(0, r.strideStep, 0, 0); }
  }

  /** One range: its index arithmetic is the search of its strides. */
  lemma {:induction false} RangeHit(r: Range, need: nat, stride: nat)
    requires ValidRange(r) && r.baseProxyIndex + r.strideCount <= MAX_STRIDE_COUNT
    requires stride == AlignUp(need, r.strideStep)
    ensures stride > r.strideMax ==> FirstAtLeast(Strides(r), need) == r.strideCount
    ensures stride <= r.strideMax ==>
              && FirstAtLeast(Strides(r), need) < r.strideCount
              && IndexIn(r, stride) == r.baseProxyIndex + FirstAtLeast(Strides(r), need)
  {
    RangeSearch(r, need);
    AlignUpSpec(need, r.strideStep);
    if stride <= r.strideMax { IndexInExact(r, stride); }
  }

  /** No range makes the rounding of `x` to its step wrap. */
  predicate NoWrap(ranges: seq<Range>, x: nat) {
    forall r <- ranges :: x + r.strideStep - 1 < U32
  }

  function TableIndex(flat: seq<nat>, base: nat, need: nat): nat {
    if FirstAtLeast(flat, need) < |flat| then base + FirstAtLeast(flat, need) else NO_MATCH
  }

  lemma {:induction false} TableSteps(ranges: seq<Range>, base: nat)
    requires ValidTable(ranges, base)
    ensures StepsFit(ranges)
    ensures forall r <- ranges :: ValidRange(r)
    decreases |ranges|
  {
    if ranges != [] { TableSteps(ranges[1..], base + ranges[0].strideCount); }
  }

  lemma {:induction false} ScanHead(ranges: seq<Range>, x: nat)
    requires StepsFit(ranges) && ranges != [] && ValidRange(ranges[0]) && x + ranges[0].strideStep - 1 < U32
    ensures AlignUp(x, ranges[0].strideStep) % ranges[0].strideStep == 0 && x <= AlignUp(x, ranges[0].strideStep)
    ensures Scan(ranges, x) ==
            if AlignUp(x, ranges[0].strideStep) > ranges[0].strideMax then Scan(ranges[1..], x)
            else IndexIn(ranges[0], AlignUp(x, ranges[0].strideStep))
  {
    StepIsPow2(ranges[0]);
    RoundUpExact(x, ranges[0].strideStep);
    AlignUpSpec(x, ranges[0].strideStep);
  }

  /** The search of a table, one range at a time. */
  lemma {:induction false} SearchHead(ranges: seq<Range>, base: nat, need: nat, stride: nat)
    requires ValidTable(ranges, base) && ranges != [] && stride == AlignUp(need, ranges[0].strideStep)
    ensures var r := ranges[0];
            TableIndex(Flat(ranges), base, need) ==
            if stride > r.strideMax then TableIndex(Flat(ranges[1..]), base + r.strideCount, need)
            else IndexIn(r, stride)
  {
    RangeHit(ranges[0], need, stride);
    FirstInConcat(Strides(ranges[0]), Flat(ranges[1..]), need);
  }

  lemma {:induction false} ScanIsSearch(ranges: seq<Range>, base: nat, need: nat)
    requires ValidTable(ranges, base) && NoWrap(ranges, need)
    ensures StepsFit(ranges)
    ensures Scan(ranges, need) == TableIndex(Flat(ranges), base, need)
    decreases |ranges|
  {
    TableSteps(ranges, base);
    if ranges != [] {
      var r := ranges[0];
      ScanHead(ranges, need);
      SearchHead(ranges, base, need, AlignUp(need, r.strideStep));
      if AlignUp(need, r.strideStep) > r.strideMax {
        ScanIsSearch(ranges[1..], base + r.strideCount, need);
      }
    }
  }

  /** Alignments the code can honour. */
  ghost predicate ValidAlignment(alignment: nat) {
    alignment <= MAX_ALIGNMENT && (alignment <= ALIGNMENT_QUANTUM || IsPow2(alignment))
  }

  lemma {:induction false} AlignToPow2(alignment: nat)
    requires ValidAlignment(alignment)
    ensures IsPow2(Max(ALIGNMENT_QUANTUM, alignment))
  {
    assert Pow2(3) == 8;
  }

  /** No intermediate sum of the code exceeds 32 bits. */
  predicate SizeInRange(ranges: seq<Range>, rawSize: nat, alignment: nat) {
    && rawSize + HEADER_BYTES + Max(ALIGNMENT_QUANTUM, alignment) - 1 < U32
    && NoWrap(ranges, Need(rawSize, alignment))
  }

  lemma {:induction false} AlignedSizeExact(rawSize: nat, alignment: nat)
    requires ValidAlignment(alignment)
    requires rawSize + HEADER_BYTES + Max(ALIGNMENT_QUANTUM, alignment) - 1 < U32
    ensures AlignedSize(rawSize, alignment) == Need(rawSize, alignment)
  {
    AlignToPow2(alignment);
    var size := rawSize + HEADER_BYTES;
    assert Add32(rawSize, HEADER_BYTES) == size;
    RoundUpExact(size, Max(ALIGNMENT_QUANTUM, alignment));
  }

  /** Main theorem. `lookup` is a linear search of the flat table for the first stride
      that is large enough, and reports no match exactly when there is none - for any
      valid table, even one whose ranges interleave. */
  lemma {:induction false} LookupIsSearch(ranges: seq<Range>, rawSize: nat, alignment: nat)
    requires ValidTable(ranges, 0) && ValidAlignment(alignment) && SizeInRange(ranges, rawSize, alignment)
    ensures StepsFit(ranges)
    ensures Scan(ranges, AlignedSize(rawSize, alignment)) == TableIndex(Flat(ranges), 0, Need(rawSize, alignment))
    ensures Scan(ranges, AlignedSize(rawSize, alignment)) == 0xFFFF <==>
            forall i | 0 <= i < |Flat(ranges)| :: Flat(ranges)[i] < Need(rawSize, alignment)
  {
    AlignedSizeExact(rawSize, alignment);
    ScanIsSearch(ranges, 0, Need(rawSize, alignment));
    FlatLength(ranges, 0);
  }

  /** Every size up to 1 GiB is in range, whatever the table. */
  lemma {:induction false} GigabyteInRange(ranges: seq<Range>, rawSize: nat, alignment: nat)
    requires ValidTable(ranges, 0) && ValidAlignment(alignment) && rawSize <= MAX_STRIDE
    ensures SizeInRange(ranges, rawSize, alignment)
  {
    TableSteps(ranges, 0);
    AlignUpSpec(rawSize + HEADER_BYTES, Max(ALIGNMENT_QUANTUM, alignment));
  }

  // ---------------------------------------------------------------- and only then

  lemma {:induction false} FlatBound(ranges: seq<Range>, base: nat, i: nat)
    requires ValidTable(ranges, base) && i < |Flat(ranges)|
    ensures Flat(ranges)[i] <= MAX_STRIDE
    decreases |ranges|
  {
    if ranges != [] {
      var r := ranges[0];
      if i < r.strideCount {
        RangeFits(r);
        MulMono(i, r.strideCount - 1, r.strideStep);
      } else {
        FlatBound(ranges[1..], base + r.strideCount, i - r.strideCount);
      }
    }
  }

  lemma {:induction false} FlatAtLeastQuantum(ranges: seq<Range>, base: nat)
    requires ValidTable(ranges, base)
    ensures forall i | 0 <= i < |Flat(ranges)| :: Flat(ranges)[i] >= 8
    ensures ranges != [] ==> Flat(ranges) != []
    decreases |ranges|
  {
    if ranges != [] { FlatAtLeastQuantum(ranges[1..], base + ranges[0].strideCount); }
  }

  lemma {:induction false} NothingThatLarge(ranges: seq<Range>, need: nat)
    requires ValidTable(ranges, 0) && need > MAX_STRIDE
    ensures TableIndex(Flat(ranges), 0, need) == NO_MATCH
  {
    var i := FirstAtLeast(Flat(ranges), need);
    if i < |Flat(ranges)| { FlatBound(ranges, 0, i); }
  }

  /** A word that wraps while being rounded to some step is matched by mistake. */
  lemma {:induction false} WrappedScanHits(ranges: seq<Range>, base: nat, x: nat)
    requires ValidTable(ranges, base) && MAX_STRIDE < x < U32 && !NoWrap(ranges, x)
    ensures StepsFit(ranges)
    ensures Scan(ranges, x) < MAX_STRIDE_COUNT
    decreases |ranges|
  {
    TableSteps(ranges, base);
    var r := ranges[0];
    if x + r.strideStep - 1 >= U32 {
      RoundUpWraps(x, r.strideStep);
      IndexInExact(r, 0);
    } else {
      ScanHead(ranges, x);
      WrappedScanHits(ranges[1..], base + r.strideCount, x);
    }
  }

  lemma {:induction false} ZeroScanHits(ranges: seq<Range>)
    requires ValidTable(ranges, 0) && ranges != []
    ensures StepsFit(ranges)
    ensures Scan(ranges, 0) < MAX_STRIDE_COUNT
  {
    TableSteps(ranges, 0);
    ScanHead(ranges, 0);
    DivModUnique(ranges[0].strideStep - 1, ranges[0].strideStep, 0, ranges[0].strideStep - 1);
    IndexInExact(ranges[0], 0);
  }

  lemma {:induction false} FlatLength(ranges: seq<Range>, base: nat)
    requires ValidTable(ranges, base)
    ensures ranges != [] ==> base + |Flat(ranges)| <= MAX_STRIDE_COUNT
    decreases |ranges|
  {
    if ranges != [] { FlatLength(ranges[1..], base + ranges[0].strideCount); }
  }

  lemma {:induction false} OneRoundsUp(a: nat)
    requires IsPow2(a) && a < U32
    ensures RoundUp32(1, a) == a
  {
    RoundUpExact(1, a);
    AlignUpSpec(1, a);
    DivModUnique(a, a, 1, 0);
    AlignUpLeast(1, a, a);
    if AlignUp(1, a) < a { DivModUnique(AlignUp(1, a), a, 0, AlignUp(1, a)); }
  }

  lemma {:induction false} LargestAligned(alignment: nat)
    requires ValidAlignment(alignment)
    ensures AlignedSize(U32 - 1, alignment) == Max(ALIGNMENT_QUANTUM, alignment)
  {
    AlignToPow2(alignment);
    assert Add32(U32 - 1, HEADER_BYTES) == 1;
    OneRoundsUp(Max(ALIGNMENT_QUANTUM, alignment));
  }

  /** For the largest size of all, 2^32 - 1, adding the header wraps first: what is looked
      up is the alignment. */
  lemma {:induction false} LargestSize(ranges: seq<Range>, a: nat)
    requires ValidTable(ranges, 0) && ranges != [] && a <= MAX_ALIGNMENT
    ensures StepsFit(ranges)
    ensures Scan(ranges, a) == NO_MATCH <==> forall i | 0 <= i < |Flat(ranges)| :: Flat(ranges)[i] < a
  {
    TableSteps(ranges, 0);
    ScanIsSearch(ranges, 0, a);
    FlatLength(ranges, 0);
  }

  /** The condition is exact: for every other size `lookup` finds a stride although none is
      large enough, unless it is the largest and the table stays below the alignment. */
  lemma {:induction false} LookupIsSearchIff(ranges: seq<Range>, rawSize: nat, alignment: nat)
    requires ValidTable(ranges, 0) && ranges != [] && ValidAlignment(alignment) && rawSize < U32
    ensures StepsFit(ranges)
    ensures Scan(ranges, AlignedSize(rawSize, alignment)) == TableIndex(Flat(ranges), 0, Need(rawSize, alignment))
            <==> SizeInRange(ranges, rawSize, alignment)
                 || (rawSize == U32 - 1 && forall i | 0 <= i < |Flat(ranges)| :: Flat(ranges)[i] < alignment)
  {
    TableSteps(ranges, 0);
    var a, size := Max(ALIGNMENT_QUANTUM, alignment), rawSize + HEADER_BYTES;
    AlignUpSpec(size, a);
    if SizeInRange(ranges, rawSize, alignment) {
      LookupIsSearch(ranges, rawSize, alignment);
    } else if rawSize == U32 - 1 {
      NothingThatLarge(ranges, Need(rawSize, alignment));
      LargestAligned(alignment);
      LargestSize(ranges, Max(ALIGNMENT_QUANTUM, alignment));
      FlatAtLeastQuantum(ranges, 0);
    } else if size + a - 1 >= U32 {
      NothingThatLarge(ranges, Need(rawSize, alignment));
      CollapsedSize(rawSize, alignment);
      ZeroScanHits(ranges);
    } else {
      AlignedSizeExact(rawSize, alignment);
      var need := Need(rawSize, alignment);
      var r :| r in ranges && need + r.strideStep - 1 >= U32;
      NothingThatLarge(ranges, need);
      WrappedScanHits(ranges, 0, need);
    }
  }

  lemma {:induction false} ZeroRoundsToZero(a: nat)
    requires IsPow2(a) && a < U32
    ensures RoundUp32(0, a) == 0
  {
    RoundUpExact(0, a);
    DivModUnique(a - 1, a, 0, a - 1);
  }

  lemma {:induction false} CollapsedSize(rawSize: nat, alignment: nat)
    requires ValidAlignment(alignment) && rawSize < U32 - 1
    requires rawSize + HEADER_BYTES + Max(ALIGNMENT_QUANTUM, alignment) - 1 >= U32
    ensures AlignedSize(rawSize, alignment) == 0
  {
    var a, size := Max(ALIGNMENT_QUANTUM, alignment), rawSize + HEADER_BYTES;
    AlignToPow2(alignment);
    if size < U32 {
      assert Add32(rawSize, HEADER_BYTES) == size;
      RoundUpWraps(size, a);
    } else {
      assert Add32(rawSize, HEADER_BYTES) == 0;
      ZeroRoundsToZero(a);
    }
  }
}
