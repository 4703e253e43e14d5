/** The range table of a metaset, and what the compile-time validation of stride ranges
    does and does not guarantee about it. */
module StrideRanges {
  import opened Bits
  import opened Lookup
  import opened Alignment
  import opened Metapool
  import opened Metaset
  import opened Pools

  // ---------------------------------------------------------------- building the table

  ghost predicate AllValid(cs: seq<Config>) {
    forall i | 0 <= i < |cs| :: Valid(cs[i])
  }

  /** The documented rule for steps. */
  ghost predicate PowerSteps(cs: seq<Config>) {
    forall i | 0 <= i < |cs| :: IsPow2(cs[i].step)
  }

  function StrideCounts(cs: seq<Config>): (s: seq<nat>)
    requires AllValid(cs)
    ensures |s| == |cs| && forall i | 0 <= i < |cs| :: s[i] == StrideCount(cs[i]) >= 1
  {
    seq(|cs|, i requires 0 <= i < |cs| => StrideCount(cs[i]))
  }

  /** `r` carries the strides of metapool `c`, and the exponent of its step rounded down. */
  ghost predicate Matches(r: Range, c: Config)
    requires Valid(c)
  {
    && r.strideMin == c.pivots[0] && r.strideMax == c.pivots[|c.pivots| - 1]
    && r.strideStep == c.step && Pow2(r.strideShift) <= c.step < Pow2(r.strideShift + 1)
    && r.strideCount == StrideCount(c)
  }

  /** ... and its pools start at `base` in the flat table. */
  ghost predicate Describes(r: Range, c: Config, base: nat)
    requires Valid(c)
  {
    Matches(r, c) && r.baseProxyIndex == base
  }

  ghost predicate TableFor(cs: seq<Config>, ranges: seq<Range>, n: nat)
    requires AllValid(cs)
  {
    && n <= |cs| && |ranges| == n
    && forall i | 0 <= i < n :: Describes(ranges[i], cs[i], Before(StrideCounts(cs), i))
  }

  lemma {:induction false} TableExtends(cs: seq<Config>, ranges: seq<Range>, r: Range, n: nat)
    requires AllValid(cs) && TableFor(cs, ranges, n) && n < |cs|
    requires Describes(r, cs[n], Before(StrideCounts(cs), n))
    ensures TableFor(cs, ranges + [r], n + 1)
  {}

  /** `build_range_entry`. */
  method BuildRangeEntry(c: Config, proxyBase: nat) returns (r: Range)
    requires Valid(c)
    ensures Describes(r, c, proxyBase)
    ensures r.strideMin == c.pivots[0] && r.strideMax == c.pivots[|c.pivots| - 1] && r.strideStep == c.step
    ensures Pow2(r.strideShift) <= c.step < Pow2(r.strideShift + 1) && r.baseProxyIndex == proxyBase
  {
    var shift := Log2Exact(c.step);
    r := Range(c.pivots[0], c.pivots[|c.pivots| - 1], c.step, StrideCount(c), shift, proxyBase);
  }

  /** `build_range_array`, over the metapools in sorted order. */
  method BuildRangeArray(cs: seq<Config>) returns (ranges: seq<Range>)
    requires AllValid(cs) && Before(StrideCounts(cs), |cs|) <= MAX_STRIDE_COUNT
    ensures TableFor(cs, ranges, |cs|)
    ensures ValidTable(ranges, 0) <==> PowerSteps(cs)
  {
    var counts := StrideCounts(cs);
    var offsetArray := ProxyOffsets(counts);
    var offsets := offsetArray[..];
    ranges := [];
    var i := 0;
    while i < |cs|
      invariant i <= |cs| && TableFor(cs, ranges, i)
    {
      assert offsets[i] == Before(counts, i);
      var r := BuildRangeEntry(cs[i], offsets[i]);
      assert Describes(r, cs[i], Before(counts, i));
      TableExtends(cs, ranges, r, i);
      ranges := ranges + [r];
      i := i + 1;
    }
    TableValidIff(cs, ranges);
  }

  lemma {:induction false} DescribedIsValid(r: Range, c: Config, base: nat)
    requires Valid(c) && Describes(r, c, base)
    ensures ValidRange(r) <==> IsPow2(c.step)
  {
    LastStride(c);
    if IsPow2(c.step) { OnlyPowerBetween(c.step, r.strideShift); }
    assert c.pivots[0] in c.pivots && c.pivots[|c.pivots| - 1] in c.pivots;
  }

  lemma {:induction false} EntryFits(cs: seq<Config>, i: nat)
    requires AllValid(cs) && i < |cs|
    ensures Before(StrideCounts(cs), i + 1) == Before(StrideCounts(cs), i) + StrideCount(cs[i])
    ensures Before(StrideCounts(cs), i + 1) <= Before(StrideCounts(cs), |cs|)
  {
    if i + 1 < |cs| { BeforeGrows(StrideCounts(cs), i + 1, |cs|); }
  }

  lemma {:induction false} TableIsValid(cs: seq<Config>, ranges: seq<Range>, i: nat, suffix: seq<Range>)
    requires AllValid(cs) && PowerSteps(cs) && TableFor(cs, ranges, |cs|) && i <= |cs| && suffix == ranges[i..]
    requires Before(StrideCounts(cs), |cs|) <= MAX_STRIDE_COUNT
    ensures ValidTable(suffix, Before(StrideCounts(cs), i))
    decreases |cs| - i
  {
    if i < |cs| {
      var base, next := Before(StrideCounts(cs), i), Before(StrideCounts(cs), i + 1);
      var r, rest := ranges[i], ranges[i + 1..];
      TableIsValid(cs, ranges, i + 1, rest);
      EntryFits(cs, i);
      assert Describes(r, cs[i], base) && IsPow2(cs[i].step);
      DescribedIsValid(r, cs[i], base);
      PrependRange(r, rest, base, next);
      SliceHead(ranges, i);
      assert suffix == [r] + rest;
    }
  }

  /** With few enough pools the table is valid exactly when the documented rule holds. */
  lemma {:induction false} TableValidIff(cs: seq<Config>, ranges: seq<Range>)
    requires AllValid(cs) && TableFor(cs, ranges, |cs|) && Before(StrideCounts(cs), |cs|) <= MAX_STRIDE_COUNT
    ensures ValidTable(ranges, 0) <==> PowerSteps(cs)
  {
    assert ranges[0..] == ranges;
    if PowerSteps(cs) { TableIsValid(cs, ranges, 0, ranges); }
    if ValidTable(ranges, 0) { ValidHasPowerSteps(cs, ranges); }
  }

  lemma {:induction false} ValidHasPowerSteps(cs: seq<Config>, ranges: seq<Range>)
    requires AllValid(cs) && TableFor(cs, ranges, |cs|) && ValidTable(ranges, 0)
    ensures PowerSteps(cs)
  {
    TableSteps(ranges, 0);
    forall i | 0 <= i < |cs|
      ensures IsPow2(cs[i].step)
    {
      assert ranges[i] in ranges && Describes(ranges[i], cs[i], Before(StrideCounts(cs), i));
    }
  }

  lemma {:induction false} SliceHead(s: seq<Range>, i: nat)
    requires i < |s|
    ensures s[i..] == [s[i]] + s[i + 1..]
  {}

  lemma {:induction false} PrependRange(r: Range, rest: seq<Range>, base: nat, next: nat)
    requires ValidRange(r) && r.baseProxyIndex == base && next == base + r.strideCount <= MAX_STRIDE_COUNT
    requires ValidTable(rest, next)
    ensures ValidTable([r] + rest, base)
  {
    assert ([r] + rest)[1..] == rest;
  }

  // ---------------------------------------------------------------- validation

  /** `stride` is one of the strides of `r`. */
  predicate Covers(r: Range, stride: nat) {
    r.strideStep > 0 && r.strideMin <= stride <= r.strideMax && (stride - r.strideMin) % r.strideStep == 0
  }

  /** What the first loop demands of each range. */
  ghost predicate WellFormed(r: Range) {
    && r.strideStep > 0 && IsPow2(r.strideStep) && r.strideMin <= r.strideMax
    && r.strideMin % r.strideStep == 0 && (r.strideMax - r.strideMin) % r.strideStep == 0
  }

  /** No stride belongs to two ranges. */
  ghost predicate NoSharedStride(ranges: seq<Range>) {
    forall j, k, s: nat | 0 <= j < k < |ranges| && Covers(ranges[j], s) :: !Covers(ranges[k], s)
  }

  ghost predicate PassesValidation(ranges: seq<Range>) {
    (forall i | 0 <= i < |ranges| :: WellFormed(ranges[i])) && NoSharedStride(ranges)
  }

  lemma {:induction false} StepMask(x: nat, step: nat)
    requires IsPow2(step)
    ensures And(x, step - 1) == x % step
  {
    var k: nat :| step == Pow2(k);
    MaskIsMod(x, k);
  }

  method CheckShape(r: Range) returns (ok: bool)
    requires r.strideStep <= MAX_STEP
    ensures ok <==> WellFormed(r)
    ensures ok <==>
            && IsPow2(r.strideStep) && r.strideMin <= r.strideMax
            && r.strideMin % r.strideStep == 0 && r.strideMax % r.strideStep == 0
  {
    WellFormedIff(r);
    if r.strideStep == 0 {
      return false;
    }
    PowerOfTwoTest(r.strideStep);
    if And(r.strideStep, r.strideStep - 1) != 0 {
      return false;
    }
    StepMask(r.strideMin, r.strideStep);
    if r.strideMin > r.strideMax || And(r.strideMin, r.strideStep - 1) != 0 {
      return false;
    }
    ok := (r.strideMax - r.strideMin) % r.strideStep == 0;
  }

  lemma {:induction false} WellFormedIff(r: Range)
    ensures WellFormed(r) <==>
            && IsPow2(r.strideStep) && r.strideMin <= r.strideMax
            && r.strideMin % r.strideStep == 0 && r.strideMax % r.strideStep == 0
  {
    if r.strideStep > 0 && r.strideMin <= r.strideMax && r.strideMin % r.strideStep == 0 { EndOnStep(r); }
  }

  lemma {:induction false} EndOnStep(r: Range)
    requires r.strideStep > 0 && r.strideMin <= r.strideMax && r.strideMin % r.strideStep == 0
    ensures (r.strideMax - r.strideMin) % r.strideStep == 0 <==> r.strideMax % r.strideStep == 0
  {
    if r.strideMax % r.strideStep == 0 { ModSum(r.strideMax, r.strideMin, r.strideStep); }
    if (r.strideMax - r.strideMin) % r.strideStep == 0 { ModSum(r.strideMax - r.strideMin, r.strideMin, r.strideStep); }
  }

  /** The innermost loop: is `stride` covered by range `mine` alone? */
  method CoveredOnce(ranges: seq<Range>, mine: nat, stride: nat) returns (once: bool)
    requires mine < |ranges| && Covers(ranges[mine], stride)
    ensures once <==> forall k | 0 <= k < |ranges| && k != mine :: !Covers(ranges[k], stride)
  {
    var coverCount := 0;
    var i := 0;
    while i < |ranges|
      invariant 0 <= i <= |ranges| && coverCount <= 1
      invariant coverCount == 0 ==> forall k | 0 <= k < i :: !Covers(ranges[k], stride)
      invariant coverCount == 1 && mine < i ==> forall k | 0 <= k < i && k != mine :: !Covers(ranges[k], stride)
      invariant coverCount == 1 && i <= mine ==> exists k | 0 <= k < i :: Covers(ranges[k], stride)
    {
      if Covers(ranges[i], stride) {
        coverCount := coverCount + 1;
        if coverCount > 1 {
          break;
        }
      }
      i := i + 1;
    }
    once := coverCount == 1;
  }

  /** Between a stride and the next there is none. */
  lemma {:induction false} NextCovered(r: Range, stride: nat)
    requires Covers(r, stride)
    ensures (stride + r.strideStep - r.strideMin) % r.strideStep == 0
    ensures forall s: nat | Covers(r, s) && stride < s :: stride + r.strideStep <= s
  {
    DivModUnique(r.strideStep, r.strideStep, 1, 0);
    ModSum(stride - r.strideMin, r.strideStep, r.strideStep);
    forall s: nat | Covers(r, s) && stride < s
      ensures stride + r.strideStep <= s
    {
      ModSum(s - r.strideMin, stride - r.strideMin, r.strideStep);
      if s < stride + r.strideStep { GridGap(r.strideStep, s - stride); }
    }
  }

  /** The middle loop: are all strides of range `mine` its own? */
  method StridesOwned(ranges: seq<Range>, mine: nat) returns (ok: bool)
    requires mine < |ranges| && WellFormed(ranges[mine])
    ensures ok <==> forall k, s: nat | 0 <= k < |ranges| && k != mine && Covers(ranges[mine], s) :: !Covers(ranges[k], s)
  {
    var r := ranges[mine];
    var stride := r.strideMin;
    DivModUnique(0, r.strideStep, 0, 0);
    while stride <= r.strideMax
      invariant r.strideMin <= stride && (stride - r.strideMin) % r.strideStep == 0
      invariant forall k, s: nat | 0 <= k < |ranges| && k != mine && Covers(r, s) && s < stride :: !Covers(ranges[k], s)
      decreases r.strideMax + r.strideStep - stride
    {
      var once := CoveredOnce(ranges, mine, stride);
      if !once {
        ghost var k :| 0 <= k < |ranges| && k != mine && Covers(ranges[k], stride);
        assert Covers(ranges[mine], stride);
        return false;
      }
      NextCovered(r, stride);
      stride := stride + r.strideStep;
    }
    ok := true;
  }

  /** `validate_stride_ranges`: accepted exactly when every range is well formed and no
      stride belongs to two of them. */
  method ValidateStrideRanges(ranges: seq<Range>) returns (ok: bool)
    requires forall i | 0 <= i < |ranges| :: ranges[i].strideStep <= MAX_STEP
    ensures ok <==> PassesValidation(ranges)
  {
    var i := 0;
    while i < |ranges|
      invariant i <= |ranges| && forall k | 0 <= k < i :: WellFormed(ranges[k])
    {
      var shaped := CheckShape(ranges[i]);
      if !shaped {
        return false;
      }
      i := i + 1;
    }
    i := 0;
    while i < |ranges|
      invariant i <= |ranges|
      invariant forall j, k, s: nat | 0 <= j < i && 0 <= k < |ranges| && k != j && Covers(ranges[j], s) :: !Covers(ranges[k], s)
    {
      var owned := StridesOwned(ranges, i);
      if !owned {
        return false;
      }
      i := i + 1;
    }
    ok := true;
  }

  // ---------------------------------------------------------------- what acceptance means

  lemma {:induction false} CoveredIsStride(r: Range, s: nat)
    requires ValidRange(r) && Covers(r, s)
    ensures s in Strides(r)
  {
    RangeFits(r);
    var i := (s - r.strideMin) / r.strideStep;
    DivTimes(s - r.strideMin, r.strideStep);
    IndexBelow(i, r.strideCount, r.strideStep, s - r.strideMin, r.strideMax - r.strideMin);
    assert Strides(r)[i] == s;
  }

  lemma {:induction false} StrideIsCovered(r: Range, i: nat)
    requires ValidRange(r) && i < r.strideCount
    ensures Covers(r, Strides(r)[i])
  {
    RangeFits(r);
    MulMono(i, r.strideCount - 1, r.strideStep);
    DivModUnique(i * r.strideStep, r.strideStep, i, 0);
  }

  /** The strides of a range are exactly what it covers. */
  lemma {:induction false} CoversIsMember(r: Range, s: nat)
    requires ValidRange(r)
    ensures Covers(r, s) <==> s in Strides(r)
  {
    if Covers(r, s) { CoveredIsStride(r, s); }
    if s in Strides(r) {
      var i :| 0 <= i < r.strideCount && Strides(r)[i] == s;
      StrideIsCovered(r, i);
    }
  }

  lemma {:induction false} FlatMembers(ranges: seq<Range>, base: nat, s: nat)
    requires ValidTable(ranges, base)
    ensures s in Flat(ranges) <==> exists k :: 0 <= k < |ranges| && Covers(ranges[k], s)
    decreases |ranges|
  {
    if ranges != [] {
      var r, rest := ranges[0], ranges[1..];
      CoversIsMember(r, s);
      FlatMembers(rest, base + r.strideCount, s);
      assert forall k | 0 <= k < |rest| :: rest[k] == ranges[k + 1];
      if s in Flat(rest) {
        var k :| 0 <= k < |rest| && Covers(rest[k], s);
        assert Covers(ranges[k + 1], s);
      }
    }
  }

  lemma {:induction false} StridesAscend(r: Range)
    requires ValidRange(r)
    ensures Ascending(Strides(r))
  {
    forall i, j | 0 <= i < j < r.strideCount
      ensures Strides(r)[i] < Strides(r)[j]
    {
      MulMono(i + 1, j, r.strideStep);
      assert (i + 1) * r.strideStep == i * r.strideStep + r.strideStep;
    }
  }

  lemma {:induction false} DistinctConcat(s: seq<nat>, t: seq<nat>)
    requires Distinct(s)
    ensures Distinct(s + t) <==> Distinct(t) && forall x | x in s :: x !in t
  {
    if Distinct(s + t) {
      forall i, j | 0 <= i < j < |t| ensures t[i] != t[j] { assert (s + t)[|s| + i] != (s + t)[|s| + j]; }
      forall x | x in s
        ensures x !in t
      {
        var i :| 0 <= i < |s| && s[i] == x;
        forall j | 0 <= j < |t| ensures t[j] != x { assert (s + t)[i] != (s + t)[|s| + j]; }
      }
    }
    if Distinct(t) && forall x | x in s :: x !in t {
      forall i, j | 0 <= i < j < |s + t|
        ensures (s + t)[i] != (s + t)[j]
      {
        if i < |s| <= j { assert s[i] in s && t[j - |s|] in t; }
      }
    }
  }

  lemma {:induction false} TailShares(ranges: seq<Range>, base: nat)
    requires ValidTable(ranges, base) && ranges != []
    ensures NoSharedStride(ranges) <==>
            NoSharedStride(ranges[1..]) && forall s | s in Strides(ranges[0]) :: s !in Flat(ranges[1..])
  {
    var r, rest := ranges[0], ranges[1..];
    assert forall k | 0 <= k < |rest| :: rest[k] == ranges[k + 1];
    if NoSharedStride(ranges) {
      forall s | s in Strides(r)
        ensures s !in Flat(rest)
      {
        CoversIsMember(r, s);
        FlatMembers(rest, base + r.strideCount, s);
      }
    }
    if NoSharedStride(rest) && forall s | s in Strides(r) :: s !in Flat(rest) {
      forall j, k, s: nat | 0 <= j < k < |ranges| && Covers(ranges[j], s)
        ensures !Covers(ranges[k], s)
      {
        if j == 0 {
          CoversIsMember(r, s);
          FlatMembers(rest, base + r.strideCount, s);
          assert ranges[k] == rest[k - 1];
        } else {
          assert ranges[j] == rest[j - 1] && ranges[k] == rest[k - 1];
        }
      }
    }
  }

  /** Main theorem. Acceptance means exactly that the strides of the flat table are
      pairwise distinct. */
  lemma {:induction false} AcceptedIffDistinct(ranges: seq<Range>, base: nat)
    requires ValidTable(ranges, base)
    ensures NoSharedStride(ranges) <==> Distinct(Flat(ranges))
    decreases |ranges|
  {
    if ranges != [] {
      AcceptedIffDistinct(ranges[1..], base + ranges[0].strideCount);
      StridesAscend(ranges[0]);
      DistinctConcat(Strides(ranges[0]), Flat(ranges[1..]));
      TailShares(ranges, base);
    }
  }

  /** The documented rule: stride ranges do not overlap (here, in sorted order). */
  ghost predicate IntervalsDisjoint(ranges: seq<Range>) {
    forall j, k | 0 <= j < k < |ranges| :: ranges[j].strideMax < ranges[k].strideMin
  }

  lemma {:induction false} ValidIsWellFormed(r: Range)
    requires ValidRange(r)
    ensures WellFormed(r)
  {
    ModSum(r.strideMax, r.strideMin, r.strideStep);
  }

  /** Whatever follows the documented rules is accepted. */
  lemma {:induction false} DisjointAccepted(ranges: seq<Range>, base: nat)
    requires ValidTable(ranges, base) && IntervalsDisjoint(ranges)
    ensures PassesValidation(ranges)
  {
    TableSteps(ranges, base);
    forall i | 0 <= i < |ranges|
      ensures WellFormed(ranges[i])
    {
      ValidIsWellFormed(ranges[i]);
    }
    forall j, k, s: nat | 0 <= j < k < |ranges| && Covers(ranges[j], s)
      ensures !Covers(ranges[k], s)
    {
      assert ranges[j].strideMax < ranges[k].strideMin;
    }
  }

  /** On the table of a metaset validation says exactly this: every step is a power of two,
      and no stride value occurs twice. */
  lemma {:induction false} TablePassesIff(cs: seq<Config>, ranges: seq<Range>)
    requires AllValid(cs) && TableFor(cs, ranges, |cs|) && Before(StrideCounts(cs), |cs|) <= MAX_STRIDE_COUNT
    ensures PassesValidation(ranges) <==>
            && (forall i | 0 <= i < |cs| :: IsPow2(cs[i].step))
            && (forall i, j | 0 <= i < j < |Flat(ranges)| :: Flat(ranges)[i] != Flat(ranges)[j])
  {
    StepsOfTable(cs, ranges);
    if PowerSteps(cs) {
      TableValidIff(cs, ranges);
      AcceptedIffDistinct(ranges, 0);
    }
  }

  lemma {:induction false} StepsOfTable(cs: seq<Config>, ranges: seq<Range>)
    requires AllValid(cs) && TableFor(cs, ranges, |cs|) && Before(StrideCounts(cs), |cs|) <= MAX_STRIDE_COUNT
    ensures (forall i | 0 <= i < |ranges| :: WellFormed(ranges[i])) <==> PowerSteps(cs)
  {
    assert forall i | 0 <= i < |cs| :: Describes(ranges[i], cs[i], Before(StrideCounts(cs), i));
    if PowerSteps(cs) {
      TableValidIff(cs, ranges);
      TableSteps(ranges, 0);
      forall i | 0 <= i < |ranges| ensures WellFormed(ranges[i]) { ValidIsWellFormed(ranges[i]); }
    }
    if forall i | 0 <= i < |ranges| :: WellFormed(ranges[i]) {
      forall i | 0 <= i < |cs| ensures IsPow2(cs[i].step) { assert WellFormed(ranges[i]); }
    }
  }

  predicate StridesAbove(flat: seq<nat>, top: nat) {
    forall i | 0 <= i < |flat| :: top < flat[i]
  }

  predicate RangesAbove(rest: seq<Range>, top: nat) {
    forall k | 0 <= k < |rest| :: top < rest[k].strideMin
  }

  lemma {:induction false} AscendingParts(s: seq<nat>, t: seq<nat>)
    requires s != [] && Ascending(s + t)
    ensures Ascending(t) && StridesAbove(t, s[|s| - 1])
  {
    forall i, j | 0 <= i < j < |t|
      ensures t[i] < t[j]
    {
      assert (s + t)[|s| + i] < (s + t)[|s| + j];
    }
    forall j | 0 <= j < |t|
      ensures s[|s| - 1] < t[j]
    {
      assert (s + t)[|s| - 1] < (s + t)[|s| + j];
    }
  }

  lemma {:induction false} AscendingConcat(s: seq<nat>, t: seq<nat>)
    requires Ascending(s) && s != []
    ensures Ascending(s + t) <==> Ascending(t) && StridesAbove(t, s[|s| - 1])
  {
    if Ascending(s + t) { AscendingParts(s, t); }
    if Ascending(t) && StridesAbove(t, s[|s| - 1]) {
      forall i, j | 0 <= i < j < |s + t|
        ensures (s + t)[i] < (s + t)[j]
      {
        if i < |s| <= j { assert s[i] <= s[|s| - 1] < t[j - |s|]; }
      }
    }
  }

  lemma {:induction false} MinIsMember(rest: seq<Range>, base: nat, k: nat)
    requires ValidTable(rest, base) && k < |rest|
    ensures rest[k].strideMin in Flat(rest)
  {
    TableSteps(rest, base);
    MinCovered(rest[k]);
    FlatMembers(rest, base, rest[k].strideMin);
  }

  lemma {:induction false} MemberAboveMin(rest: seq<Range>, base: nat, x: nat) returns (k: nat)
    requires ValidTable(rest, base) && x in Flat(rest)
    ensures k < |rest| && rest[k].strideMin <= x
  {
    FlatMembers(rest, base, x);
    k :| 0 <= k < |rest| && Covers(rest[k], x);
  }

  lemma {:induction false} StridesThenRanges(rest: seq<Range>, base: nat, top: nat)
    requires ValidTable(rest, base) && StridesAbove(Flat(rest), top)
    ensures RangesAbove(rest, top)
  {
    forall k | 0 <= k < |rest|
      ensures top < rest[k].strideMin
    {
      MinIsMember(rest, base, k);
    }
  }

  lemma {:induction false} RangesThenStrides(rest: seq<Range>, base: nat, top: nat)
    requires ValidTable(rest, base) && RangesAbove(rest, top)
    ensures StridesAbove(Flat(rest), top)
  {
    forall i | 0 <= i < |Flat(rest)|
      ensures top < Flat(rest)[i]
    {
      assert Flat(rest)[i] in Flat(rest);
      var k := MemberAboveMin(rest, base, Flat(rest)[i]);
    }
  }

  lemma {:induction false} TailAbove(rest: seq<Range>, base: nat, top: nat)
    requires ValidTable(rest, base)
    ensures StridesAbove(Flat(rest), top) <==> RangesAbove(rest, top)
  {
    if StridesAbove(Flat(rest), top) { StridesThenRanges(rest, base, top); }
    if RangesAbove(rest, top) { RangesThenStrides(rest, base, top); }
  }

  lemma {:induction false} IntervalsTail(ranges: seq<Range>)
    requires ranges != []
    ensures IntervalsDisjoint(ranges) <==>
            IntervalsDisjoint(ranges[1..]) && RangesAbove(ranges[1..], ranges[0].strideMax)
  {
    var rest := ranges[1..];
    assert forall k | 0 <= k < |rest| :: rest[k] == ranges[k + 1];
    if IntervalsDisjoint(rest) && RangesAbove(rest, ranges[0].strideMax) {
      forall j, k | 0 <= j < k < |ranges|
        ensures ranges[j].strideMax < ranges[k].strideMin
      {
        assert ranges[k] == rest[k - 1];
        if j > 0 { assert ranges[j] == rest[j - 1]; }
      }
    }
  }

  lemma {:induction false} StridesEnd(r: Range)
    requires ValidRange(r)
    ensures Ascending(Strides(r)) && Strides(r) != [] && Strides(r)[|Strides(r)| - 1] == r.strideMax
  {
    StridesAscend(r);
    RangeFits(r);
  }

  /** The flat table ascends - which fallback relies on - exactly when the rule holds. */
  lemma {:induction false} AscendingIffDisjoint(ranges: seq<Range>, base: nat)
    requires ValidTable(ranges, base)
    ensures Ascending(Flat(ranges)) <==> IntervalsDisjoint(ranges)
    decreases |ranges|
  {
    if ranges != [] {
      var r, rest := ranges[0], ranges[1..];
      AscendingIffDisjoint(rest, base + r.strideCount);
      StridesEnd(r);
      AscendingConcat(Strides(r), Flat(rest));
      TailAbove(rest, base + r.strideCount, r.strideMax);
      IntervalsTail(ranges);
    }
  }

  lemma {:induction false} MinCovered(r: Range)
    requires ValidRange(r)
    ensures Covers(r, r.strideMin)
  {
    DivModUnique(0, r.strideStep, 0, 0);
  }

  /** Strides 32 and 64 in one range, 48 in the other. */
  const INTERLEAVED: seq<Range> := [Range(32, 64, 32, 2, 5, 0), Range(48, 48, 16, 1, 4, 2)]

  /** Acceptance does not imply the rule: two interleaved ranges pass, and the flat
      table they form does not ascend. */
  lemma {:induction false} InterleavedAccepted()
    ensures ValidTable(INTERLEAVED, 0) && PassesValidation(INTERLEAVED)
    ensures !IntervalsDisjoint(INTERLEAVED) && !Ascending(Flat(INTERLEAVED))
  {
    var a, b := INTERLEAVED[0], INTERLEAVED[1];
    assert INTERLEAVED == [a, b];
    assert Pow2(4) == 16 && Pow2(5) == 32;
    assert [a, b][1..] == [b] && [b][1..] == [];
    AscendingIffDisjoint([a, b], 0);
    Interleave(a, b);
    ValidIsWellFormed(a);
    ValidIsWellFormed(b);
  }

  lemma {:induction false} Interleave(a: Range, b: Range)
    requires a.strideMin == 32 && a.strideMax == 64 && a.strideStep == 32
    requires b.strideMin == b.strideMax == 48
    ensures NoSharedStride([a, b])
  {
    assert !Covers(a, 48);
  }
}
