/** The last compile-time gate in front of the allocator: the table as a whole. */
module AllocatorConfigs {
  import opened Bits
  import opened Memory
  import opened Lookup
  import opened Metapool
  import opened Metaset
  import opened StrideRanges

  function CountsOf(ranges: seq<Range>): (s: seq<nat>)
    ensures |s| == |ranges| && forall i | 0 <= i < |ranges| :: s[i] == ranges[i].strideCount
  {
    seq(|ranges|, i requires 0 <= i < |ranges| => ranges[i].strideCount)
  }

  /** A range of one stride is taken as it is; any other starts and ends on its step. */
  predicate OnStep(r: Range) {
    && r.strideStep > 0 && r.strideMin <= r.strideMax
    && (r.strideMin == r.strideMax || (r.strideMin % r.strideStep == 0 && r.strideMax % r.strideStep == 0))
  }

  predicate Accepted(ranges: seq<Range>) {
    && ranges != [] && (forall i | 0 <= i < |ranges| :: OnStep(ranges[i]))
    && Before(CountsOf(ranges), |ranges|) % U32 <= MAX_STRIDE_COUNT
  }

  /** The checks on one range: masks where the step is a power of two, remainders where
      it is not. */
  method CheckRange(r: Range) returns (ok: bool)
    requires r.strideStep < U32
    ensures ok <==> OnStep(r)
    ensures ok <==>
            && r.strideStep > 0 && r.strideMin <= r.strideMax
            && (r.strideMin < r.strideMax ==> r.strideMin % r.strideStep == 0 && r.strideMax % r.strideStep == 0)
  {
    if r.strideStep == 0 || r.strideMin > r.strideMax {
      return false;
    }
    if r.strideMin == r.strideMax {
      return true;
    }
    PowerOfTwoTest(r.strideStep);
    if And(r.strideStep, r.strideStep - 1) == 0 {
      StepMask(r.strideMin, r.strideStep);
      StepMask(r.strideMax, r.strideStep);
      var mask := r.strideStep - 1;
      ok := And(r.strideMin, mask) == 0 && And(r.strideMax, mask) == 0;
    } else {
      ok := r.strideMin % r.strideStep == 0 && r.strideMax % r.strideStep == 0;
    }
  }

  lemma {:induction false} AddCount(counts: seq<nat>, total: nat, i: nat)
    requires i < |counts| && total == Before(counts, i) % U32
    ensures Add32(total, counts[i]) == Before(counts, i + 1) % U32
  {
    var b, c := Before(counts, i), counts[i];
    DivModUnique(b + c, U32, b / U32 + (b % U32 + c) / U32, (b % U32 + c) % U32);
  }

  method IsAllocatorConfig(ranges: seq<Range>) returns (ok: bool)
    requires forall i | 0 <= i < |ranges| :: ranges[i].strideStep < U32
    ensures ok <==> Accepted(ranges)
  {
    if |ranges| == 0 {
      return false;
    }
    var totalStrideCount := 0;
    var i := 0;
    while i < |ranges|
      invariant i <= |ranges| && totalStrideCount == Before(CountsOf(ranges), i) % U32
      invariant forall j | 0 <= j < i :: OnStep(ranges[j])
    {
      var good := CheckRange(ranges[i]);
      if !good {
        return false;
      }
      AddCount(CountsOf(ranges), totalStrideCount, i);
      totalStrideCount := Add32(totalStrideCount, ranges[i].strideCount);
      i := i + 1;
    }
    ok := totalStrideCount <= MAX_STRIDE_COUNT;
  }

  lemma {:induction false} CountsAgree(cs: seq<Config>, ranges: seq<Range>)
    requires AllValid(cs) && TableFor(cs, ranges, |cs|)
    ensures CountsOf(ranges) == StrideCounts(cs)
  {
    forall i | 0 <= i < |cs|
      ensures ranges[i].strideCount == StrideCounts(cs)[i]
    {
      assert Describes(ranges[i], cs[i], Before(StrideCounts(cs), i));
    }
  }

  lemma {:induction false} TableTotal(cs: seq<Config>, ranges: seq<Range>, i: nat, suffix: seq<Range>)
    requires AllValid(cs) && TableFor(cs, ranges, |cs|) && i <= |cs| && suffix == ranges[i..]
    requires i > 0 ==> Before(StrideCounts(cs), i) <= MAX_STRIDE_COUNT
    requires ValidTable(suffix, Before(StrideCounts(cs), i))
    ensures cs != [] ==> Before(StrideCounts(cs), |cs|) <= MAX_STRIDE_COUNT
    decreases |cs| - i
  {
    if i < |cs| {
      var base, next, rest := Before(StrideCounts(cs), i), Before(StrideCounts(cs), i + 1), ranges[i + 1..];
      assert Describes(ranges[i], cs[i], base);
      SliceHead(ranges, i);
      EntryFits(cs, i);
      TableTail(ranges[i], rest, suffix, base, next);
      TableTotal(cs, ranges, i + 1, rest);
    }
  }

  lemma {:induction false} TableTail(r: Range, rest: seq<Range>, table: seq<Range>, base: nat, next: nat)
    requires table == [r] + rest && ValidTable(table, base) && next == base + r.strideCount
    ensures next <= MAX_STRIDE_COUNT && ValidTable(rest, next)
  {
    assert table[1..] == rest;
  }

  lemma {:induction false} DescribedOnStep(r: Range, c: Config)
    requires Valid(c) && Matches(r, c)
    ensures OnStep(r)
  {
    LastStride(c);
    assert c.pivots[0] in c.pivots && c.pivots[|c.pivots| - 1] in c.pivots;
  }

  /** On the table of a metaset the gate accepts exactly when the stride counts, as a
      32-bit sum, come to at most 4096: everything else it checks is already known. */
  lemma {:induction false} AcceptedIffCounts(cs: seq<Config>, ranges: seq<Range>)
    requires AllValid(cs) && TableFor(cs, ranges, |cs|) && cs != []
    ensures Accepted(ranges) <==> Before(StrideCounts(cs), |cs|) % U32 <= 4096
  {
    CountsAgree(cs, ranges);
    forall i | 0 <= i < |cs|
      ensures OnStep(ranges[i])
    {
      assert Describes(ranges[i], cs[i], Before(StrideCounts(cs), i));
      DescribedOnStep(ranges[i], cs[i]);
    }
  }

  /** The tables for which `lookup` is proved are those accepted without a wrapped sum
      whose steps are powers of two. */
  lemma {:induction false} ValidIffAccepted(cs: seq<Config>, ranges: seq<Range>)
    requires AllValid(cs) && TableFor(cs, ranges, |cs|) && cs != []
    ensures ValidTable(ranges, 0) <==>
            Accepted(ranges) && Before(StrideCounts(cs), |cs|) < U32 && PowerSteps(cs)
  {
    AcceptedIffCounts(cs, ranges);
    var total := Before(StrideCounts(cs), |cs|);
    if total < U32 { DivModUnique(total, U32, 0, total); }
    assert ranges[0..] == ranges;
    if ValidTable(ranges, 0) { TableTotal(cs, ranges, 0, ranges); }
    if total <= MAX_STRIDE_COUNT { TableValidIff(cs, ranges); }
  }

  const ODD_STEP: Range := Range(24, 72, 24, 3, 4, 0)

  lemma {:induction false} OddStepAccepted()
    ensures Valid(Config(Same, 1, 24, [24, 72])) && Accepted([ODD_STEP])
  {
    assert CountsOf([ODD_STEP]) == [3];
    assert Before([3], 1) == 3;
  }

  lemma {:induction false} OddStepRejectable()
    ensures !WellFormed(ODD_STEP)
  {
    PowerOfTwoTest(24);
    assert And(24, 23) == 16;
  }

  lemma {:induction false} AndHalves(a: nat, b: nat, r: nat)
    requires a > 0 && b > 0 && And(a / 2, b / 2) == r
    ensures And(a, b) == 2 * r + (if a % 2 == 1 && b % 2 == 1 then 1 else 0)
  {}

  lemma {:induction false} OddStepMask()
    ensures And(95, 0xFFFF_FFE8) == 72
  {
    AndHalves(1, 0x03FF_FFFF, 0);
    AndHalves(2, 0x07FF_FFFF, 1);
    AndHalves(5, 0x0FFF_FFFE, 2);
    AndHalves(11, 0x1FFF_FFFD, 4);
    AndHalves(23, 0x3FFF_FFFA, 9);
    AndHalves(47, 0x7FFF_FFF4, 18);
    AndHalves(95, 0xFFFF_FFE8, 36);
  }

  lemma {:induction false} OddStepRounds()
    ensures AlignedSize(70, 8) == 72 && RoundUp32(72, 24) == 72
  {
    assert Pow2(3) == 8;
    AlignedSizeExact(70, 8);
    assert Need(70, 8) == 72;
    OddStepMask();
  }

  lemma {:induction false} OddStepIndex()
    ensures IndexIn(ODD_STEP, 72) == 3
  {
    AllOnes(48);
    assert Shr(48, 4) == 3;
  }

  /** Neither this gate nor the configuration of a single metapool demands a power of
      two, and the validation that does is skipped for a set of one. The rule is what
      makes `lookup` right, though some other steps happen to work. With step 24 the
      request for 70 bytes is then looked up at index 3 of a table of three, although
      its last stride, 72, would do. */
  lemma {:induction false} OddStepMissesLookup()
    ensures Valid(Config(Same, 1, 24, [24, 72])) && Accepted([ODD_STEP]) && !WellFormed(ODD_STEP)
    ensures Strides(ODD_STEP) == [24, 48, 72] && FirstAtLeast([24, 48, 72], Need(70, 8)) == 2
    ensures Scan([ODD_STEP], AlignedSize(70, 8)) == 3
  {
    OddStepAccepted();
    OddStepRejectable();
    OddStepRounds();
    OddStepIndex();
    FirstAtLeastUnique([24, 48, 72], 72, 2);
  }

  // ---------------------------------------------------------------- a descending declaration

  const LARGE: Config := Config(Same, 1, 8, [64, 64])
  const SMALL: Config := Config(Same, 1, 8, [16, 32])
  const TABLE: seq<Range> := [Range(16, 32, 8, 3, 3, 0), Range(64, 64, 8, 1, 3, 3)]

  lemma {:induction false} LargeAndSmall()
    ensures Valid(LARGE) && Valid(SMALL) && StrideCount(LARGE) == 1 && StrideCount(SMALL) == 3
    ensures IsPow2(8) && Pow2(3) == 8 && Pow2(4) == 16
  {
    assert Pow2(3) == 8;
    assert CountAfter(Same, 1, 1) == 1;
  }

  lemma {:induction false} BeforeTwo(counts: seq<nat>)
    requires |counts| == 2
    ensures Before(counts, 0) == 0 && Before(counts, 1) == counts[0] && Before(counts, 2) == counts[0] + counts[1]
  {}

  lemma {:induction false} TableOfBoth()
    ensures AllValid([SMALL, LARGE]) && TableFor([SMALL, LARGE], TABLE, 2)
    ensures Accepted(TABLE)
  {
    LargeAndSmall();
    assert StrideCounts([SMALL, LARGE]) == [3, 1];
    BeforeTwo(StrideCounts([SMALL, LARGE]));
    assert Before(StrideCounts([SMALL, LARGE]), 2) == 4;
    assert Describes(TABLE[0], SMALL, 0) && Describes(TABLE[1], LARGE, 3);
    DivModUnique(4, U32, 0, 4);
    AcceptedIffCounts([SMALL, LARGE], TABLE);
  }

  lemma {:induction false} TablePasses()
    ensures PassesValidation(TABLE)
  {
    LargeAndSmall();
    ValidIsWellFormed(TABLE[0]);
    ValidIsWellFormed(TABLE[1]);
    assert forall s: nat | Covers(TABLE[0], s) :: !Covers(TABLE[1], s);
  }

  /** Declared with the larger strides first, two metapools that pass every check make the
      walk over the proxies leave the table of four: the second of them writes positions 3,
      4 and 5. And the header of the 64-byte blocks, 3, leads to a pool of the other one. */
  lemma {:induction false} DescendingDeclaration()
    ensures Valid(LARGE) && Valid(SMALL) && PassesValidation(TABLE) && Accepted(TABLE)
    ensures AllValid([SMALL, LARGE]) && TableFor([SMALL, LARGE], TABLE, 2)
    ensures SortedBy([64, 16], [1, 0]) && IsInverse([1, 0], [1, 0])
    ensures [StrideCount(LARGE), StrideCount(SMALL)] == [1, 3] && Before([3, 1], 2) == 4
    ensures !StaysInside([1, 3], [3, 1], 2)
    ensures forall i: nat | i < 3 :: ProxyPosition([3, 1], 1, i) == 3 + i
    ensures HeaderIndex([3, 1], [1, 0], 0, 0) == 3 && WrittenAt([1, 3], [3, 1], 2, 3) == Proxy(1, 0)
  {
    LargeAndSmall();
    TableOfBoth();
    TablePasses();
    BeforeTwo([3, 1]);
    assert Before([3, 1], 1) + [1, 3][1] > Before([3, 1], 2);
  }
}
