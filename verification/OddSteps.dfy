/** Sets of a single metapool compile with any step. When does `lookup` work on a step that
    is no power of two? Only for one stride, at one place relative to the next power of two. */
module OddSteps {
  import opened Bits
  import opened Memory
  import opened Lookup
  import opened Alignment
  import opened Metapool
  import opened Metaset
  import opened StrideRanges
  import opened AllocatorConfigs

  // ---------------------------------------------------------------- masks that are no powers of two

  lemma {:induction false} AndHalf(y: nat, m: nat)
    ensures And(y, m) == 2 * And(y / 2, m / 2) + (if y % 2 == 1 && m % 2 == 1 then 1 else 0)
  {
    if y == 0 || m == 0 { assert And(y / 2, m / 2) == 0; }
  }

  lemma {:induction false} HalfOf(r: nat, a: nat, b: nat)
    requires r == 2 * a + b && b < 2
    ensures r / 2 == a && r % 2 == b
  {}

  /** A mask below `2^k` sees only the bits below. */
  lemma {:induction false} AndBelow(y: nat, m: nat, k: nat, p: nat)
    requires p == Pow2(k) && m < p
    ensures And(y, m) == And(y % p, m)
    decreases k
  {
    if k > 0 {
      var h := Pow2(k - 1);
      HalveDivMod(y, h);
      HalfOf(y % p, y / 2 % h, y % 2);
      AndHalf(y, m);
      AndHalf(y % p, m);
      AndBelow(y / 2, m / 2, k - 1, h);
    }
  }

  /** A number and its complement have no bit in common. */
  lemma {:induction false} AndComplement(m: nat, k: nat)
    requires m < Pow2(k)
    ensures And(m, Pow2(k) - 1 - m) == 0
  {
    AndSplit(m, m, k);
    AndSelf(m);
  }

  lemma {:induction false} BitsOfRest(z: nat, e: nat, l: nat)
    requires z == 8 * e + l && l < 8
    ensures z % 2 == l % 2 && z / 2 % 2 == l / 2 % 2 && z / 4 % 2 == l / 4 % 2
  {
    assert z / 2 == 4 * e + l / 2 && z / 4 == 2 * e + l / 4;
  }

  lemma {:induction false} ComplementaryBits(z: nat, c: nat)
    requires z % 8 + c % 8 == 7
    ensures z % 2 + c % 2 == 1 && z / 2 % 2 + c / 2 % 2 == 1 && z / 4 % 2 + c / 4 % 2 == 1
  {
    BitsOfRest(z, z / 8, z % 8);
    BitsOfRest(c, c / 8, c % 8);
    SmallComplement(z % 8, c % 8);
  }

  lemma {:induction false} SmallComplement(l: nat, m: nat)
    requires l + m == 7
    ensures l % 2 + m % 2 == 1 && l / 2 % 2 + m / 2 % 2 == 1 && l / 4 % 2 + m / 4 % 2 == 1
  {
    assert l in {0, 1, 2, 3, 4, 5, 6, 7};
  }

  lemma {:induction false} EighthByHalves(z: nat)
    ensures z / 2 / 2 == z / 4 && z / 4 / 2 == z / 8
  {}

  /** Where the low three bits are complementary, the rest decides. */
  lemma {:induction false} AndOnQuantum(z: nat, c: nat)
    requires z % 8 + c % 8 == 7
    ensures And(z, c) == 8 * And(z / 8, c / 8)
  {
    ComplementaryBits(z, c);
    EighthByHalves(z);
    EighthByHalves(c);
    AndHalf(z, c);
    AndHalf(z / 2, c / 2);
    AndHalf(z / 4, c / 4);
  }

  // ---------------------------------------------------------------- multiples

  predicate Multiple(b: nat, p: nat)
    requires p > 0
    decreases b
  {
    b == 0 || (p <= b && Multiple(b - p, p))
  }

  lemma {:induction false} MultipleMod(b: nat, p: nat)
    requires p > 0
    ensures Multiple(b, p) <==> b % p == 0
    decreases b
  {
    if b >= p {
      MultipleMod(b - p, p);
      ModLess(b, p);
    } else if b > 0 {
      DivModUnique(b, p, 0, b);
    }
  }

  lemma {:induction false} ModLess(b: nat, p: nat)
    requires 0 < p <= b
    ensures (b - p) % p == b % p
  {
    var q, r := b / p, b % p;
    assert b == p * q + r && p * (q - 1) == p * q - p;
    DivModUnique(b - p, p, q - 1, r);
  }

  lemma {:induction false} MultiplesApart(a: nat, b: nat, p: nat)
    requires p > 0 && Multiple(a, p) && Multiple(b, p) && a < b
    ensures a + p <= b
    decreases a
  {
    if a > 0 { MultiplesApart(a - p, b - p, p); }
  }

  lemma {:induction false} MultipleOf8(b: nat, p: nat)
    requires p > 0 && p % 8 == 0 && Multiple(b, p)
    ensures b % 8 == 0
    decreases b
  {
    if b > 0 { MultipleOf8(b - p, p); }
  }

  /** The multiple at or below a number. */
  lemma {:induction false} MultipleBelow(y: nat, p: nat) returns (b: nat)
    requires p > 0
    ensures Multiple(b, p) && b <= y < b + p && y % p == y - b
    decreases y
  {
    if y < p {
      b := 0;
      DivModUnique(y, p, 0, y);
    } else {
      var c := MultipleBelow(y - p, p);
      b := c + p;
      ModLess(y, p);
    }
  }

  // ---------------------------------------------------------------- rounding

  /** A step between two powers of two, `p` being the upper one. */
  ghost predicate Odd(s: nat, k: nat, p: nat) {
    8 <= s <= MAX_STEP && Pow2(k) < s < p == Pow2(k + 1)
  }

  /** The largest multiple of 8 up to what the step leaves of the next power of two. */
  function Slack(s: nat, p: nat): nat {
    if s <= p then (p - s) / 8 * 8 else 0
  }

  lemma {:induction false} OddExponent(s: nat, k: nat, p: nat)
    requires Odd(s, k, p)
    ensures 3 <= k < 29
  {
    if k >= 29 { HalfGiB(); Pow2Mono(29, k); }
    assert Pow2(3) == 8;
    if k < 3 { Pow2Mono(k + 1, 3); }
  }

  lemma {:induction false} OddBounds(s: nat, k: nat, p: nat)
    requires Odd(s, k, p)
    ensures k + 1 <= 32 && p % 8 == 0 && 16 <= p <= MAX_STEP && s < p < 2 * s && Slack(s, p) <= p - s < s
  {
    OddExponent(s, k, p);
    HalfGiB();
    Pow2Mono(k + 1, 29);
    assert Pow2(3) == 8;
    Pow2Mono(4, k + 1);
    Pow2Divides(8, p);
  }

  lemma {:induction false} WordSplit(y: nat, m: nat)
    requires y < U32 && m < U32
    ensures And(y, m) + And(y, Not32(m)) == y
  {
    Pow2Of32();
    AndSplit(y, m, 32);
  }

  /** What a mask clears lies below the power of two. */
  lemma {:induction false} ClearedParts(y: nat, m: nat, k: nat, p: nat, b: nat, z: nat)
    requires p == Pow2(k) && p <= U32 && m < p && Multiple(b, p) && z < p && y == b + z < U32
    ensures And(y, Not32(m)) == b + And(z, p - 1 - m)
  {
    WordSplit(y, m);
    AndBelow(y, m, k, p);
    RemainderOf(b, z, p);
    AndSplit(z, m, k);
  }

  lemma {:induction false} RoundUpWord(x: nat, s: nat, y: nat)
    requires 0 < s <= U32 && y == x + s - 1 < U32
    ensures RoundUp32(x, s) == And(y, Not32(s - 1))
  {
    assert Add32(x, s - 1) == y;
  }

  /** The rounding of `lookup` for a step `s` up to the power of two `p`: the part above
      `p` is kept, the part below is masked by what `s` leaves of `p`. */
  lemma {:induction false} RoundedParts(x: nat, s: nat, k: nat, p: nat, b: nat, z: nat)
    requires p == Pow2(k) && p <= MAX_STEP && 0 < s <= p && Multiple(b, p) && z < p
    requires x + s - 1 == b + z < U32
    ensures RoundUp32(x, s) == b + And(z, p - s)
  {
    RoundUpWord(x, s, b + z);
    ClearedParts(b + z, s - 1, k, p, b, z);
  }

  lemma {:induction false} RemainderOf(b: nat, z: nat, p: nat)
    requires p > 0 && Multiple(b, p) && z < p
    ensures (b + z) % p == z
  {
    MultipleMod(b, p);
    DivTimes(b, p);
    DivModUnique(b + z, p, b / p, z);
  }

  lemma {:induction false} LowBits(x: nat, s: nat, p: nat, b: nat, z: nat)
    requires x % 8 == 0 && p % 8 == 0 && b % 8 == 0 && 0 < s < p && x + s - 1 == b + z
    ensures z % 8 + (p - s) % 8 == 7
  {}

  /** A need, what it is rounded to, and where. */
  lemma {:induction false} RoundedNeed(x: nat, s: nat, k: nat, p: nat, b: nat, z: nat)
    requires Odd(s, k, p) && Multiple(b, p) && z < p && x % 8 == 0 && x + s - 1 == b + z < U32
    ensures z % 8 + (p - s) % 8 == 7
    ensures RoundUp32(x, s) == b + 8 * And(z / 8, (p - s) / 8) <= b + Slack(s, p)
  {
    OddBounds(s, k, p);
    MultipleOf8(b, p);
    LowBits(x, s, p, b, z);
    RoundedParts(x, s, k + 1, p, b, z);
    AndOnQuantum(z, p - s);
  }

  /** Needs up to `b` plus the slack are not rounded beyond it ... */
  lemma {:induction false} RoundedLow(s: nat, k: nat, p: nat, b: nat, x: nat)
    requires Odd(s, k, p) && Multiple(b, p) && b <= MAX_STRIDE && x % 8 == 0 && x <= b + Slack(s, p)
    ensures RoundUp32(x, s) <= b + Slack(s, p)
  {
    OddBounds(s, k, p);
    var c := MultipleBelow(x + s - 1, p);
    RoundedNeed(x, s, k, p, c, x + s - 1 - c);
    if c > b { MultiplesApart(b, c, p); }
  }

  /** ... and all others are, beyond the next multiple. */
  lemma {:induction false} RoundedHigh(s: nat, k: nat, p: nat, b: nat, x: nat)
    requires Odd(s, k, p) && Multiple(b, p) && x % 8 == 0 && x >= b + Slack(s, p) + 8 && x + s - 1 < U32
    ensures RoundUp32(x, s) >= b + p
  {
    OddBounds(s, k, p);
    var c := MultipleBelow(x + s - 1, p);
    RoundedNeed(x, s, k, p, c, x + s - 1 - c);
    assert Multiple(b + p, p);
    if c < b + p { MultiplesApart(c, b + p, p); }
  }

  lemma {:induction false} FarNeed(s: nat, p: nat, b: nat, z: nat, x: int)
    requires p % 8 == 0 && b % 8 == 0 && 0 < s < p < 2 * s && p <= b
    requires z == (p - s) / 8 * 8 + (s - 1) % 8 && x == b + z - (s - 1)
    ensures x % 8 == 0 && 8 <= x <= b && z < p && z / 8 == (p - s) / 8
  {}

  /** A need well below `b` is rounded up to `b` plus the slack. */
  lemma {:induction false} RoundedFar(s: nat, k: nat, p: nat, b: nat) returns (x: nat)
    requires Odd(s, k, p) && Multiple(b, p) && 0 < b <= MAX_STRIDE
    ensures x % 8 == 0 && 8 <= x <= b && RoundUp32(x, s) == b + Slack(s, p)
  {
    OddBounds(s, k, p);
    MultipleOf8(b, p);
    var z := (p - s) / 8 * 8 + (s - 1) % 8;
    FarNeed(s, p, b, z, b + z - (s - 1));
    x := b + z - (s - 1);
    RoundedNeed(x, s, k, p, b, z);
    AndSelf((p - s) / 8);
  }

  /** Multiples of `p` are kept ... */
  lemma {:induction false} RoundedMultiple(s: nat, k: nat, p: nat, b: nat)
    requires Odd(s, k, p) && Multiple(b, p) && b <= MAX_STRIDE
    ensures b % 8 == 0 && RoundUp32(b, s) == b
  {
    OddBounds(s, k, p);
    MultipleOf8(b, p);
    RoundedParts(b, s, k + 1, p, b, s - 1);
    AndComplement(s - 1, k + 1);
  }

  lemma {:induction false} NextNeed(s: nat, p: nat, b: nat, x: nat)
    requires p % 8 == 0 && b % 8 == 0 && 0 < s < p <= b && x == b - p + Slack(s, p) + 8
    ensures x % 8 == 0 && b <= x + s - 1 < b + 8
  {}

  /** ... and the first need above the slack of the multiple before comes up to them. */
  lemma {:induction false} RoundedNext(s: nat, k: nat, p: nat, b: nat, x: nat)
    requires Odd(s, k, p) && Multiple(b, p) && 0 < b <= MAX_STRIDE && x == b - p + Slack(s, p) + 8
    ensures x % 8 == 0 && RoundUp32(x, s) == b
  {
    OddBounds(s, k, p);
    MultipleOf8(b, p);
    NextNeed(s, p, b, x);
    RoundedNeed(x, s, k, p, b, x + s - 1 - b);
    assert And(0, (p - s) / 8) == 0;
  }

  // ---------------------------------------------------------------- one range

  /** What a compiling set of one metapool hands to `lookup` when its step is no power of
      two. */
  ghost predicate OddRange(r: Range) {
    && Odd(r.strideStep, r.strideShift, Pow2(r.strideShift + 1)) && r.baseProxyIndex == 0
    && r.strideStep <= r.strideMin <= r.strideMax <= MAX_STRIDE
    && r.strideMin % 8 == 0 && r.strideMax % 8 == 0
    && 1 <= r.strideCount <= MAX_STRIDE_COUNT
    && r.strideMax == LastOf(r)
  }

  function LastOf(r: Range): nat
    requires r.strideCount >= 1
  {
    r.strideMin + (r.strideCount - 1) * r.strideStep
  }

  /** `lookup` and search agree on need `x`. */
  ghost predicate RightAt(r: Range, x: nat) {
    0 < r.strideStep <= U32 && Scan([r], x) == TableIndex(Flat([r]), 0, x)
  }

  /** ... and on every need that the code can compute without wrapping. */
  ghost predicate RightForNeeds(r: Range) {
    forall x: nat | x % 8 == 0 && 8 <= x && x + r.strideStep - 1 < U32 :: RightAt(r, x)
  }

  lemma {:induction false} ScanOne(r: Range, x: nat)
    requires 0 < r.strideStep <= U32
    ensures Scan([r], x) == if RoundUp32(x, r.strideStep) > r.strideMax then NO_MATCH else IndexIn(r, RoundUp32(x, r.strideStep))
  {
    assert [r][1..] == [];
  }

  lemma {:induction false} FlatOne(r: Range)
    ensures Flat([r]) == Strides(r)
  {
    assert [r][1..] == [];
  }

  lemma {:induction false} StrideBefore(r: Range, j: nat, i: nat, x: nat)
    requires j < i <= r.strideCount && r.strideMin + (i - 1) * r.strideStep < x
    ensures Strides(r)[j] < x
  {
    MulMono(j, i - 1, r.strideStep);
  }

  /** The search finds stride `i` for the needs above the stride before, and nothing above
      the last. */
  lemma {:induction false} SearchOne(r: Range, x: nat, i: nat)
    requires i < r.strideCount ==> x <= r.strideMin + i * r.strideStep
    requires 0 < i <= r.strideCount ==> r.strideMin + (i - 1) * r.strideStep < x
    requires i <= r.strideCount
    ensures TableIndex(Flat([r]), 0, x) == if i < r.strideCount then i else NO_MATCH
  {
    FlatOne(r);
    forall j | 0 <= j < i
      ensures Strides(r)[j] < x
    {
      StrideBefore(r, j, i, x);
    }
    FirstAtLeastUnique(Strides(r), x, i);
  }

  lemma {:induction false} SearchBelow(r: Range, x: nat, i: nat)
    requires i < r.strideCount && x <= r.strideMin + i * r.strideStep
    ensures TableIndex(Flat([r]), 0, x) <= i
  {
    FlatOne(r);
    assert Strides(r)[i] >= x;
  }

  /** A need rounded past the range is wrongly refused. */
  lemma {:induction false} WronglyRefused(r: Range, x: nat)
    requires OddRange(r) && x <= r.strideMax < RoundUp32(x, r.strideStep)
    ensures !RightAt(r, x)
  {
    ScanOne(r, x);
    SearchBelow(r, x, r.strideCount - 1);
  }

  /** The largest stride sits at the slack above a multiple of the next power of two. */
  ghost predicate InPlace(r: Range) {
    var p := Pow2(r.strideShift + 1);
    r.strideMax % p == Slack(r.strideStep, p)
  }

  /** The power of two above the step, and its multiple at or below the largest stride. */
  ghost predicate Frame(r: Range, p: nat, b: nat) {
    && OddRange(r) && p == Pow2(r.strideShift + 1) && Odd(r.strideStep, r.strideShift, p)
    && Multiple(b, p) && b <= r.strideMax < b + p && r.strideMax % p == r.strideMax - b && b % 8 == 0
  }

  lemma {:induction false} FrameOf(r: Range) returns (p: nat, b: nat)
    requires OddRange(r)
    ensures Frame(r, p, b) && (InPlace(r) <==> r.strideMax - b == Slack(r.strideStep, p))
    ensures b > 0 || r.strideMax >= r.strideStep > Slack(r.strideStep, p)
  {
    p := Pow2(r.strideShift + 1);
    OddBounds(r.strideStep, r.strideShift, p);
    b := MultipleBelow(r.strideMax, p);
    MultipleOf8(b, p);
  }

  /** Out of place, some need that the largest stride could hold is refused. */
  lemma {:induction false} OutOfPlaceWrong(r: Range) returns (x: nat)
    requires OddRange(r) && !InPlace(r)
    ensures x % 8 == 0 && 8 <= x <= r.strideMax && !RightAt(r, x)
  {
    var p, b := FrameOf(r);
    x := RefusedNeed(r, p, b, r.strideStep, r.strideShift, r.strideMax);
    WronglyRefused(r, x);
  }

  lemma {:induction false} RefusedNeed(r: Range, p: nat, b: nat, s: nat, k: nat, top: nat) returns (x: nat)
    requires Odd(s, k, p) && Multiple(b, p) && b % 8 == 0 && b <= top < b + p && top % 8 == 0 && s <= top <= MAX_STRIDE
    requires top - b != Slack(s, p)
    ensures x % 8 == 0 && 8 <= x <= top && RoundUp32(x, s) > top
  {
    OddBounds(s, k, p);
    if top - b > Slack(s, p) {
      x := top;
      RoundedHigh(s, k, p, b, x);
    } else {
      x := RoundedFar(s, k, p, b);
    }
  }

  // ---------------------------------------------------------------- one stride

  lemma {:induction false} IndexOfSmallest(r: Range, stride: nat)
    requires stride <= r.strideMin < U32 && r.baseProxyIndex == 0
    ensures IndexIn(r, stride) == 0
  {
    ShiftIsDiv(0, r.strideShift);
    if stride == r.strideMin { AllOnes(0); assert Sub32(stride, r.strideMin) == 0; }
    assert MaskedOffset(r, stride) == 0;
    DivModUnique(0, Pow2(r.strideShift), 0, 0);
  }

  lemma {:induction false} SingleCount(r: Range)
    requires OddRange(r)
    ensures r.strideMin == r.strideMax <==> r.strideCount == 1
  {
    if r.strideCount > 1 { MulMono(1, r.strideCount - 1, r.strideStep); }
  }

  lemma {:induction false} OneStrideHits(r: Range, p: nat, b: nat, x: nat)
    requires Frame(r, p, b) && r.strideCount == 1 && r.strideMax == b + Slack(r.strideStep, p)
    requires x % 8 == 0 && x <= r.strideMax
    ensures RightAt(r, x)
  {
    RoundedLow(r.strideStep, r.strideShift, p, b, x);
    ScanOne(r, x);
    IndexOfSmallest(r, RoundUp32(x, r.strideStep));
    SearchOne(r, x, 0);
  }

  lemma {:induction false} OneStrideMisses(r: Range, p: nat, b: nat, x: nat)
    requires Frame(r, p, b) && r.strideCount == 1 && r.strideMax == b + Slack(r.strideStep, p)
    requires x % 8 == 0 && x > r.strideMax && x + r.strideStep - 1 < U32
    ensures RightAt(r, x)
  {
    OddBounds(r.strideStep, r.strideShift, p);
    EightUp(r.strideMax, x);
    RoundedHigh(r.strideStep, r.strideShift, p, b, x);
    ScanOne(r, x);
    SearchOne(r, x, 1);
  }

  lemma {:induction false} EightUp(low: nat, high: nat)
    requires low % 8 == 0 && high % 8 == 0 && low < high
    ensures low + 8 <= high
  {}

  // ---------------------------------------------------------------- several strides

  lemma {:induction false} StepsBack(n: nat, s: nat)
    ensures n >= 2 ==> (n - 1) * s == (n - 2) * s + s
    ensures n >= 3 ==> (n - 2) * s == (n - 3) * s + s
  {}

  /** The strides before the last. */
  lemma {:induction false} LastStrides(r: Range)
    requires OddRange(r) && r.strideCount >= 2
    ensures r.strideMin + (r.strideCount - 2) * r.strideStep == r.strideMax - r.strideStep
    ensures r.strideCount >= 3 ==> r.strideMin + (r.strideCount - 3) * r.strideStep == r.strideMax - 2 * r.strideStep
  {
    StepsBack(r.strideCount, r.strideStep);
  }

  lemma {:induction false} SameRounding(r: Range, x: nat, y: nat)
    requires 0 < r.strideStep <= U32 && RoundUp32(x, r.strideStep) == RoundUp32(y, r.strideStep)
    ensures Scan([r], x) == Scan([r], y)
  {
    ScanOne(r, x);
    ScanOne(r, y);
  }

  /** In place, with a slack of 8 or more, two needs of different strides are rounded to the
      same value. */
  lemma {:induction false} SharedRounding(r: Range, p: nat, b: nat)
    requires Frame(r, p, b) && r.strideCount >= 2 && r.strideMax == b + Slack(r.strideStep, p) && Slack(r.strideStep, p) >= 8
    ensures !RightForNeeds(r)
  {
    var s, k, n := r.strideStep, r.strideShift, r.strideCount;
    OddBounds(s, k, p);
    LastStrides(r);
    if b > 0 {
      MultiplesApart(0, b, p);
      var y := b - p + Slack(s, p) + 8;
      RoundedMultiple(s, k, p, b);
      RoundedNext(s, k, p, b, y);
      SameRounding(r, b, y);
      SearchOne(r, b, n - 1);
      SearchBelow(r, y, n - 2);
      assert !RightAt(r, b) || !RightAt(r, y);
    }
  }

  lemma {:induction false} IndexWithin(r: Range, stride: nat)
    requires r.strideMin <= stride < U32 && r.baseProxyIndex == 0
    ensures IndexIn(r, stride) == (stride - r.strideMin) / Pow2(r.strideShift) % U16
  {
    var offset := stride - r.strideMin;
    assert Sub32(stride, r.strideMin) == offset;
    AllOnes(offset);
    ShiftIsDiv(offset, r.strideShift);
  }

  lemma {:induction false} TwoHalves(x: nat, h: nat)
    requires h > 0
    ensures (x + 2 * h) / h == x / h + 2
  {
    assert x == h * (x / h) + x % h;
    assert h * (x / h + 2) == h * (x / h) + 2 * h;
    DivModUnique(x + 2 * h, h, x / h + 2, x % h);
  }

  lemma {:induction false} IndexTwoUp(r: Range, y: nat, p: nat)
    requires r.strideMin <= y && y + p < U32 && r.baseProxyIndex == 0 && p == Pow2(r.strideShift + 1)
    ensures IndexIn(r, y + p) == (IndexIn(r, y) + 2) % U16
  {
    IndexWithin(r, y);
    IndexWithin(r, y + p);
    TwoIndices(IndexIn(r, y), IndexIn(r, y + p), y - r.strideMin, y + p - r.strideMin, p, Pow2(r.strideShift));
  }

  lemma {:induction false} TwoIndices(a: nat, b: nat, low: nat, high: nat, p: nat, h: nat)
    requires h > 0 && p == 2 * h && high == low + p && a == low / h % U16 && b == high / h % U16
    ensures b == (a + 2) % U16
  {
    HalvesApart(low, high, p, h);
    WordUp(low / h);
  }

  lemma {:induction false} HalvesApart(low: nat, high: nat, p: nat, h: nat)
    requires h > 0 && p == 2 * h && high == low + p
    ensures high / h == low / h + 2
  {
    TwoHalves(low, h);
  }

  lemma {:induction false} WordUp(i: nat)
    ensures (i + 2) % U16 == (i % U16 + 2) % U16
  {}

  /** In place without slack, the largest stride is itself a multiple of the power of two,
      and the multiple before has an index two lower, which is one too many. */
  lemma {:induction false} SkippedIndex(r: Range, p: nat, b: nat)
    requires Frame(r, p, b) && r.strideCount >= 3 && r.strideMax == b && Slack(r.strideStep, p) == 0
    ensures !RightForNeeds(r)
  {
    var s, k, n := r.strideStep, r.strideShift, r.strideCount;
    OddBounds(s, k, p);
    var y := b - p;
    assert Multiple(y, p);
    KeptNeed(r, p, b);
    KeptNeed(r, p, y);
    SkippedSearch(r, y, p);
    ThirdLast(r);
    IndexTwoUp(r, y, p);
    assert !RightAt(r, b) || !RightAt(r, y);
  }

  lemma {:induction false} KeptNeed(r: Range, p: nat, b: nat)
    requires Odd(r.strideStep, r.strideShift, p) && Multiple(b, p) && b <= r.strideMax <= MAX_STRIDE
    ensures b % 8 == 0 && Scan([r], b) == IndexIn(r, b)
  {
    RoundedMultiple(r.strideStep, r.strideShift, p, b);
    ScanOne(r, b);
  }

  lemma {:induction false} SkippedSearch(r: Range, y: nat, p: nat)
    requires OddRange(r) && r.strideCount >= 3 && y + p == r.strideMax && r.strideStep < p < 2 * r.strideStep
    requires p - r.strideStep < 8
    ensures TableIndex(Flat([r]), 0, r.strideMax) == r.strideCount - 1
    ensures TableIndex(Flat([r]), 0, y) == r.strideCount - 2
  {
    LastStrides(r);
    SearchOne(r, r.strideMax, r.strideCount - 1);
    SearchOne(r, y, r.strideCount - 2);
  }

  lemma {:induction false} ThirdLast(r: Range)
    requires OddRange(r) && r.strideCount >= 3
    ensures r.strideMin <= r.strideMax - 2 * r.strideStep
  {
    LastStrides(r);
    MulMono(0, r.strideCount - 3, r.strideStep);
  }

  /** Two strides a multiple of 8 apart leave a slack. */
  lemma {:induction false} TwoStridesSlack(r: Range, p: nat, b: nat)
    requires Frame(r, p, b) && r.strideCount == 2
    ensures Slack(r.strideStep, p) >= 8
  {
    OddBounds(r.strideStep, r.strideShift, p);
    LastStrides(r);
    TwoApart(r.strideMin, r.strideMax, r.strideStep, p);
  }

  lemma {:induction false} TwoApart(low: nat, high: nat, s: nat, p: nat)
    requires low % 8 == 0 && high % 8 == 0 && p % 8 == 0 && high == low + s && s < p
    ensures Slack(s, p) >= 8
  {}

  /** With two strides or more some need always goes wrong. */
  lemma {:induction false} SeveralStridesWrong(r: Range)
    requires OddRange(r) && r.strideCount >= 2
    ensures !RightForNeeds(r)
  {
    var p, b := FrameOf(r);
    if !InPlace(r) {
      var x := OutOfPlaceWrong(r);
    } else if Slack(r.strideStep, p) >= 8 {
      SharedRounding(r, p, b);
    } else {
      if r.strideCount == 2 { TwoStridesSlack(r, p, b); }
      SkippedIndex(r, p, b);
    }
  }

  /** For a step that is no power of two, `lookup` is the search for all needs exactly when
      there is one stride and it is in place. */
  lemma {:induction false} OddRangeIff(r: Range)
    requires OddRange(r)
    ensures RightForNeeds(r) <==> r.strideMin == r.strideMax && InPlace(r)
  {
    SingleCount(r);
    if r.strideCount >= 2 {
      SeveralStridesWrong(r);
    } else if InPlace(r) {
      var p, b := FrameOf(r);
      forall x: nat | x % 8 == 0 && 8 <= x && x + r.strideStep - 1 < U32
        ensures RightAt(r, x)
      {
        if x <= r.strideMax { OneStrideHits(r, p, b, x); } else { OneStrideMisses(r, p, b, x); }
      }
    } else {
      var x := OutOfPlaceWrong(r);
    }
  }

  // ---------------------------------------------------------------- sets of one metapool

  /** `lookup` answers this request as the search does. */
  ghost predicate RequestRight(r: Range, size: nat, alignment: nat)
    requires alignment < U32
  {
    0 < r.strideStep <= U32
    && Scan([r], AlignedSize(size, alignment)) == TableIndex(Flat([r]), 0, Need(size, alignment))
  }

  /** ... and every request on which no sum wraps. */
  ghost predicate LookupRight(r: Range) {
    forall size: nat, alignment: nat |
      size > 0 && ValidAlignment(alignment) && SizeInRange([r], size, alignment) :: RequestRight(r, size, alignment)
  }

  lemma {:induction false} NeedOnQuantum(size: nat, alignment: nat)
    requires ValidAlignment(alignment)
    ensures Need(size, alignment) % 8 == 0 && Need(size, alignment) >= 8
  {
    var a := Max(ALIGNMENT_QUANTUM, alignment);
    AlignToPow2(alignment);
    assert Pow2(3) == 8;
    Pow2Divides(8, a);
    AlignUpSpec(size + HEADER_BYTES, a);
    ModTrans(Need(size, alignment), 8, a);
  }

  lemma {:induction false} RequestIsNeed(r: Range, size: nat, alignment: nat)
    requires 8 <= r.strideStep <= MAX_STEP && ValidAlignment(alignment) && SizeInRange([r], size, alignment)
    ensures Need(size, alignment) % 8 == 0 && Need(size, alignment) >= 8
    ensures Need(size, alignment) + r.strideStep - 1 < U32
    ensures RequestRight(r, size, alignment) <==> RightAt(r, Need(size, alignment))
  {
    NeedOnQuantum(size, alignment);
    AlignedSizeExact(size, alignment);
    assert r in [r];
  }

  lemma {:induction false} NeedIsRequest(r: Range, x: nat)
    requires 8 <= r.strideStep <= MAX_STEP && x % 8 == 0 && 8 <= x && x + r.strideStep - 1 < U32
    ensures Need(x - HEADER_BYTES, ALIGNMENT_QUANTUM) == x && ValidAlignment(ALIGNMENT_QUANTUM)
    ensures SizeInRange([r], x - HEADER_BYTES, ALIGNMENT_QUANTUM)
  {
    AlignUpSpec(x, ALIGNMENT_QUANTUM);
    AlignUpLeast(x, ALIGNMENT_QUANTUM, x);
  }

  lemma {:induction false} RequestsAreNeeds(r: Range)
    requires 8 <= r.strideStep <= MAX_STEP
    ensures LookupRight(r) <==> RightForNeeds(r)
  {
    if RightForNeeds(r) {
      forall size: nat, alignment: nat | size > 0 && ValidAlignment(alignment) && SizeInRange([r], size, alignment)
        ensures RequestRight(r, size, alignment)
      {
        RequestIsNeed(r, size, alignment);
      }
    }
    if LookupRight(r) {
      forall x: nat | x % 8 == 0 && 8 <= x && x + r.strideStep - 1 < U32
        ensures RightAt(r, x)
      {
        NeedIsRequest(r, x);
        RequestIsNeed(r, x - HEADER_BYTES, ALIGNMENT_QUANTUM);
      }
    }
  }

  /** A positive multiple is at least its factor. */
  lemma {:induction false} AtLeastStep(x: nat, s: nat)
    requires s > 0 && x > 0 && x % s == 0
    ensures x >= s
  {
    if x < s { DivModUnique(x, s, 0, x); }
  }

  lemma {:induction false} ConfigCounts(c: Config, r: Range)
    requires Valid(c) && TableFor([c], [r], 1) && Accepted([r])
    ensures Describes(r, c, 0) && StrideCount(c) <= MAX_STRIDE_COUNT
  {
    assert Describes([r][0], [c][0], Before(StrideCounts([c]), 0));
    LastStride(c);
    assert c.pivots[|c.pivots| - 1] in c.pivots;
    var n := StrideCount(c);
    DivTimes(c.pivots[|c.pivots| - 1] - c.pivots[0], c.step);
    MulMono(8, c.step, n - 1);
    assert c.step * (n - 1) == (n - 1) * c.step && 8 * (n - 1) <= MAX_STRIDE;
    AcceptedIffCounts([c], [r]);
    assert Before(StrideCounts([c]), 1) == n;
    DivModUnique(n, U32, 0, n);
  }

  lemma {:induction false} ConfigIsOdd(c: Config, r: Range)
    requires Valid(c) && Describes(r, c, 0) && StrideCount(c) <= MAX_STRIDE_COUNT && !IsPow2(c.step)
    ensures OddRange(r)
  {
    LastStride(c);
    assert c.pivots[0] in c.pivots && c.pivots[|c.pivots| - 1] in c.pivots;
    AtLeastStep(c.pivots[0], c.step);
  }

  lemma {:induction false} PowerStepRight(c: Config, r: Range)
    requires Valid(c) && TableFor([c], [r], 1) && Describes(r, c, 0) && StrideCount(c) <= MAX_STRIDE_COUNT && IsPow2(c.step)
    ensures LookupRight(r)
  {
    DescribedIsValid(r, c, 0);
    assert [r][1..] == [];
    assert ValidTable([r], 0);
    forall size: nat, alignment: nat | size > 0 && ValidAlignment(alignment) && SizeInRange([r], size, alignment)
      ensures RequestRight(r, size, alignment)
    {
      LookupIsSearch([r], size, alignment);
    }
  }

  lemma {:induction false} SingleMetapool(c: Config, r: Range, p: nat)
    requires Valid(c) && TableFor([c], [r], 1) && Accepted([r]) && p == Pow2(r.strideShift + 1)
    ensures LookupRight(r) <==> IsPow2(c.step) || (r.strideMin == r.strideMax && r.strideMax % p == Slack(c.step, p))
  {
    ConfigCounts(c, r);
    if IsPow2(c.step) {
      PowerStepRight(c, r);
    } else {
      ConfigIsOdd(c, r);
      RequestsAreNeeds(r);
      OddRangeIff(r);
    }
  }

  /** Main theorem. On a set of one metapool that the code accepts, `lookup` is the linear
      search, for all requests on which no sum wraps, exactly when the step is a power of
      two or there is one stride and it sits, above a multiple of the next power of two, at
      the largest multiple of 8 that the step leaves of it. */
  lemma {:induction false} SingleMetapoolIff(c: Config, r: Range, p: nat)
    requires Valid(c) && TableFor([c], [r], 1) && Accepted([r]) && p == Pow2(r.strideShift + 1)
    ensures c.step < p <= 2 * c.step
    ensures (forall size: nat, alignment: nat |
               size > 0 && ValidAlignment(alignment) && SizeInRange([r], size, alignment) :: RequestRight(r, size, alignment))
            <==> IsPow2(c.step) || (r.strideMin == r.strideMax && r.strideMax % p == (p - c.step) / 8 * 8)
  {
    SingleMetapool(c, r, p);
    assert Describes([r][0], [c][0], Before(StrideCounts([c]), 0));
    assert p == 2 * Pow2(r.strideShift);
    assert Slack(c.step, p) == (p - c.step) / 8 * 8;
  }
}
