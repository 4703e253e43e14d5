/** One metapool of a set: which configurations are accepted, how many blocks each of
    its pools gets, and how many bytes of arena it reserves. */
module Metapool {
  import opened Bits
  import opened IntMath
  import opened Lookup

  datatype Capacity = Div8 | Div4 | Div2 | Same | Mul2 | Mul4 | Mul8

  datatype Config = Config(func: Capacity, baseCount: nat, step: nat, pivots: seq<nat>)

  /** Divisor or multiplier of a capacity function. */
  function Factor(f: Capacity): (d: nat)
    ensures d >= 1
  {
    match f
    case Div8 => 8
    case Div4 => 4
    case Div2 => 2
    case Same => 1
    case Mul2 => 2
    case Mul4 => 4
    case Mul8 => 8
  }

  predicate Divides(f: Capacity) {
    f.Div8? || f.Div4? || f.Div2?
  }

  /** One application of the capacity function to a 32-bit count. */
  function NextCount(f: Capacity, count: nat): nat {
    if Divides(f) then Max(count / Factor(f), 1) else count * Factor(f) % U32
  }

  /** ... and `k` applications. */
  function CountAfter(f: Capacity, base: nat, k: nat): nat {
    if k == 0 then base else NextCount(f, CountAfter(f, base, k - 1))
  }

  /** The documented block count: the base count times, or divided by, the factor raised
      to the number of pivots passed; at least 1 when dividing, 32 bits when multiplying. */
  function Scaled(f: Capacity, base: nat, power: nat): nat
    requires power >= 1
  {
    if Divides(f) then Max(base / power, 1) else base * power % U32
  }

  lemma {:induction false} DivFormula(f: Capacity, base: nat, k: nat)
    requires 1 <= base && Divides(f)
    ensures CountAfter(f, base, k) == Scaled(f, base, Pow(Factor(f), k))
  {
    if k == 0 {
      assert base / Pow(Factor(f), 0) == base;
    } else {
      DivFormula(f, base, k - 1);
      var d, p := Factor(f), Pow(Factor(f), k - 1);
      DivDiv(base, p, d);
      if base / p == 0 { DivModUnique(1, d, 0, 1); }
    }
  }

  lemma {:induction false} MulStep(base: nat, p: nat, d: nat)
    ensures base * p % U32 * d % U32 == base * (d * p) % U32
  {
    ModTimes(base * p, d, U32);
    assert base * p * d == base * (d * p);
  }

  lemma {:induction false} MulFormula(f: Capacity, base: nat, k: nat)
    requires (base < U32 || k > 0) && !Divides(f)
    ensures CountAfter(f, base, k) == Scaled(f, base, Pow(Factor(f), k))
  {
    if k == 0 {
      DivModUnique(base, U32, 0, base);
      assert base * Pow(Factor(f), 0) == base;
    } else if k == 1 {
      PowLaws(Factor(f), 0, 0);
    } else {
      MulFormula(f, base, k - 1);
      MulStep(base, Pow(Factor(f), k - 1), Factor(f));
    }
  }

  /** Applying the capacity function pivot by pivot, wrap-around and lower bound
      included, gives the documented formula. */
  lemma {:induction false} CountFormula(f: Capacity, base: nat, k: nat)
    requires 1 <= base && (base < U32 || k > 0)
    ensures CountAfter(f, base, k) == Scaled(f, base, Pow(Factor(f), k))
  {
    if Divides(f) { DivFormula(f, base, k); } else { MulFormula(f, base, k); }
  }

  lemma {:induction false} CountSame(base: nat, k: nat)
    requires base < U32 || k > 0
    ensures CountAfter(Same, base, k) == base % U32
  {
    if base < U32 { DivModUnique(base, U32, 0, base); }
    if k > 1 {
      CountSame(base, k - 1);
      DivModUnique(base % U32, U32, 0, base % U32);
    }
  }

  /** The same in numbers: what each capacity function makes of a count after `k` pivots. */
  lemma {:induction false} CountInNumbers(base: nat, k: nat)
    requires 1 <= base < U32
    ensures CountAfter(Same, base, k) == base
    ensures CountAfter(Mul2, base, k) == base * Pow2(k) % U32
    ensures CountAfter(Mul4, base, k) == base * Pow2(2 * k) % U32
    ensures CountAfter(Mul8, base, k) == base * Pow2(3 * k) % U32
    ensures CountAfter(Div2, base, k) == if base < Pow2(k) then 1 else base / Pow2(k)
    ensures CountAfter(Div4, base, k) == if base < Pow2(2 * k) then 1 else base / Pow2(2 * k)
    ensures CountAfter(Div8, base, k) == if base < Pow2(3 * k) then 1 else base / Pow2(3 * k)
  {
    PowersOfTwo(k);
    CountSame(base, k);
    DivModUnique(base, U32, 0, base);
    CountFormula(Mul2, base, k);
    CountFormula(Mul4, base, k);
    CountFormula(Mul8, base, k);
    DividedInNumbers(Div2, base, k, Pow2(k));
    DividedInNumbers(Div4, base, k, Pow2(2 * k));
    DividedInNumbers(Div8, base, k, Pow2(3 * k));
  }

  lemma {:induction false} DividedInNumbers(f: Capacity, base: nat, k: nat, p: nat)
    requires 1 <= base && Divides(f) && p == Pow(Factor(f), k)
    ensures p > 0 && CountAfter(f, base, k) == if base < p then 1 else base / p
  {
    DivFormula(f, base, k);
    if base < p { DivModUnique(base, p, 0, base); } else { QuotientPositive(base, p); }
  }

  lemma {:induction false} QuotientPositive(x: nat, p: nat)
    requires 0 < p <= x
    ensures x / p >= 1
  {
    if x / p == 0 { DivTimes(x, p); }
  }

  lemma {:induction false} RemainderBound(p: nat, d: nat, r': nat, r: nat)
    requires r' < d && r < p
    ensures p * r' + r < p * d
  {
    MulMono(r' + 1, d, p);
    assert (r' + 1) * p == p * r' + p && d * p == p * d;
  }

  lemma {:induction false} DivDiv(x: nat, p: nat, d: nat)
    requires p > 0 && d > 0
    ensures d * p > 0 && x / (d * p) == x / p / d
  {
    var q, r := x / p, x % p;
    var q', r' := q / d, q % d;
    assert x == p * q + r && q == d * q' + r';
    assert p * (d * q' + r') == (p * d) * q' + p * r';
    RemainderBound(p, d, r', r);
    assert p * d == d * p;
    DivModUnique(x, p * d, q', p * r' + r);
  }

  /** A count that is positive after `k` steps was positive at every step before. */
  lemma {:induction false} CountsPositive(f: Capacity, base: nat, j: nat, k: nat)
    requires base >= 1 && j <= k && CountAfter(f, base, k) >= 1
    ensures CountAfter(f, base, j) >= 1
    decreases k
  {
    if j < k && !Divides(f) {
      var c := CountAfter(f, base, k - 1);
      if c == 0 { DivModUnique(0, U32, 0, 0); }
      CountsPositive(f, base, j, k - 1);
    }
  }

  // ---------------------------------------------------------------- which configurations are valid

  ghost predicate StrictlyIncreasing(s: seq<nat>) {
    forall i, j | 0 <= i < j < |s| :: s[i] < s[j]
  }

  /** What `ValidMetapoolConfig` accepts, stated outright. */
  ghost predicate Valid(c: Config) {
    && 1 <= c.baseCount && 8 <= c.step <= MAX_STEP
    && |c.pivots| >= 2
    && (forall p <- c.pivots :: 8 <= p <= MAX_STRIDE && p % 8 == 0 && p % c.step == 0)
    && (StrictlyIncreasing(c.pivots) || (|c.pivots| == 2 && c.pivots[0] == c.pivots[1]))
    && CountAfter(c.func, c.baseCount, |c.pivots| - 1) >= 1
  }

  /** What of a count is left after `k` pivots, as a 32-bit word: dividing never exhausts
      it, multiplying does when all its bits are shifted out. */
  lemma {:induction false} FinalCount(f: Capacity, base: nat, k: nat)
    requires base >= 1 && k >= 1
    ensures CountAfter(f, base, k) >= 1 <==>
            match f
            case Same => base % U32 != 0
            case Mul2 => base * Pow2(k) % U32 != 0
            case Mul4 => base * Pow2(2 * k) % U32 != 0
            case Mul8 => base * Pow2(3 * k) % U32 != 0
            case _ => true
  {
    PowersOfTwo(k);
    CountFormula(f, base, k);
    CountSame(base, k);
  }

  /** The configurations that are valid, spelled out. */
  lemma {:induction false} ValidIff(c: Config)
    ensures Valid(c) <==>
            && 1 <= c.baseCount && 8 <= c.step <= 0x2000_0000 && |c.pivots| >= 2
            && (forall i | 0 <= i < |c.pivots| ::
                  8 <= c.pivots[i] <= 0x4000_0000 && c.pivots[i] % 8 == 0 && c.pivots[i] % c.step == 0)
            && ((forall i, j | 0 <= i < j < |c.pivots| :: c.pivots[i] < c.pivots[j])
                || (|c.pivots| == 2 && c.pivots[0] == c.pivots[1]))
            && match c.func
               case Same => c.baseCount % U32 != 0
               case Mul2 => c.baseCount * Pow2(|c.pivots| - 1) % U32 != 0
               case Mul4 => c.baseCount * Pow2(2 * (|c.pivots| - 1)) % U32 != 0
               case Mul8 => c.baseCount * Pow2(3 * (|c.pivots| - 1)) % U32 != 0
               case _ => true
  {
    if c.baseCount >= 1 && |c.pivots| >= 2 { FinalCount(c.func, c.baseCount, |c.pivots| - 1); }
    assert forall i | 0 <= i < |c.pivots| :: c.pivots[i] in c.pivots;
  }

  lemma {:induction false} Increasing(s: seq<nat>, i: nat, j: nat)
    requires forall k | 0 < k < |s| :: s[k - 1] < s[k]
    requires i < j < |s|
    ensures s[i] < s[j]
    decreases j
  {
    if i < j - 1 { Increasing(s, i, j - 1); }
  }

  /** The compile-time check, as the source runs it. */
  method CheckConfig(c: Config) returns (ok: bool)
    ensures ok <==> Valid(c)
  {
    if !(c.baseCount >= 1 && c.step >= 8 && c.step <= MAX_STEP && |c.pivots| >= 2) {
      return false;
    }
    var i := 0;
    while i < |c.pivots|
      invariant 0 <= i <= |c.pivots|
      invariant forall j | 0 <= j < i :: 8 <= c.pivots[j] <= MAX_STRIDE && c.pivots[j] % 8 == 0 && c.pivots[j] % c.step == 0
    {
      if c.pivots[i] % 8 != 0 || c.pivots[i] < 8 || c.pivots[i] > MAX_STRIDE || c.pivots[i] % c.step != 0 {
        assert c.pivots[i] in c.pivots;
        return false;
      }
      i := i + 1;
    }
    var single := |c.pivots| == 2 && c.pivots[0] == c.pivots[|c.pivots| - 1];
    if !single {
      i := 1;
      while i < |c.pivots|
        invariant 1 <= i <= |c.pivots|
        invariant forall k | 0 < k < i :: c.pivots[k - 1] < c.pivots[k]
      {
        if c.pivots[i] <= c.pivots[i - 1] {
          return false;
        }
        i := i + 1;
      }
      forall i, j | 0 <= i < j < |c.pivots| ensures c.pivots[i] < c.pivots[j] { Increasing(c.pivots, i, j); }
    }
    var last := c.pivots[|c.pivots| - 1] as int - c.pivots[0];
    assert last % c.step == 0 by { ModSum(c.pivots[|c.pivots| - 1], c.pivots[0], c.step); }
    if c.func.Same? && last % c.step != 0 {
      return false;
    }
    var count := c.baseCount;
    i := 1;
    while i < |c.pivots|
      invariant 1 <= i <= |c.pivots|
      invariant count == CountAfter(c.func, c.baseCount, i - 1)
    {
      count := NextCount(c.func, count);
      i := i + 1;
    }
    ok := count >= 1;
  }

  // ---------------------------------------------------------------- strides and block counts

  function StrideCount(c: Config): (n: nat)
    requires Valid(c)
    ensures n >= 1
  {
    (c.pivots[|c.pivots| - 1] - c.pivots[0]) / c.step + 1
  }

  function StrideAt(c: Config, i: nat): nat
    requires Valid(c)
  {
    c.pivots[0] + i * c.step
  }

  /** How many of `pivots` lie above `low` and at or below `s`. */
  function PivotsPassed(pivots: seq<nat>, low: nat, s: nat): nat {
    if pivots == [] then 0
    else (if low < pivots[0] <= s then 1 else 0) + PivotsPassed(pivots[1..], low, s)
  }

  /** Moving from one stride to the next passes a pivot exactly when the next stride is
      one: pivots lie on the stride grid and are distinct. */
  lemma {:induction false} NextStridePasses(pivots: seq<nat>, step: nat, low: nat, s: nat)
    requires step > 0 && s % step == 0 && low <= s
    requires StrictlyIncreasing(pivots) && forall i | 0 <= i < |pivots| :: pivots[i] % step == 0
    ensures PivotsPassed(pivots, low, s + step) ==
            PivotsPassed(pivots, low, s) + (if s + step in pivots then 1 else 0)
  {
    if pivots != [] {
      var p, rest := pivots[0], pivots[1..];
      NextStridePasses(rest, step, low, s);
      if s < p <= s + step {
        ModSum(p, s, step);
        GridGap(step, p - s);
        assert p == s + step;
      }
      assert forall i | 0 <= i < |rest| :: rest[i] == pivots[i + 1];
      assert s + step in pivots <==> s + step == p || s + step in rest;
    }
  }

  lemma {:induction false} GridGap(step: nat, d: nat)
    requires 0 < d <= step && d % step == 0
    ensures d == step
  {
    if d < step { DivModUnique(d, step, 0, d); }
  }

  lemma {:induction false} NonePassed(pivots: seq<nat>, low: nat)
    ensures PivotsPassed(pivots, low, low) == 0
  {
    if pivots != [] { NonePassed(pivots[1..], low); }
  }

  lemma {:induction false} AllPassed(pivots: seq<nat>, low: nat, s: nat)
    requires forall i | 0 <= i < |pivots| :: low < pivots[i] <= s
    ensures PivotsPassed(pivots, low, s) == |pivots|
  {
    if pivots != [] { AllPassed(pivots[1..], low, s); }
  }

  /** How many blocks pool `i` gets. */
  function BlockCount(c: Config, i: nat): nat
    requires Valid(c)
  {
    CountAfter(c.func, c.baseCount, PivotsPassed(c.pivots, c.pivots[0], StrideAt(c, i)))
  }

  lemma {:induction false} NonePassedBelow(pivots: seq<nat>, low: nat, s: nat)
    requires forall i | 0 <= i < |pivots| :: s < pivots[i]
    ensures PivotsPassed(pivots, low, s) == 0
  {
    if pivots != [] { NonePassedBelow(pivots[1..], low, s); }
  }

  lemma {:induction false} PassedUpTo(pivots: seq<nat>, low: nat, s: nat, m: nat)
    requires m <= |pivots|
    requires forall i | 0 <= i < m :: low < pivots[i] <= s
    requires forall i | m <= i < |pivots| :: s < pivots[i]
    ensures PivotsPassed(pivots, low, s) == m
    decreases m
  {
    if m == 0 { NonePassedBelow(pivots, low, s); } else { PassedUpTo(pivots[1..], low, s, m - 1); }
  }

  lemma {:induction false} SegmentPassed(c: Config, m: nat, s: nat)
    requires m < |c.pivots| && c.pivots[m] <= s && (m + 1 < |c.pivots| ==> s < c.pivots[m + 1])
    requires forall i, j | 0 <= i < j < |c.pivots| :: c.pivots[i] < c.pivots[j]
    ensures PivotsPassed(c.pivots, c.pivots[0], s) == m
  {
    forall i | 0 <= i <= m ensures c.pivots[i] <= s { if i < m { assert c.pivots[i] < c.pivots[m]; } }
    forall i | m < i < |c.pivots| ensures s < c.pivots[i] { if m + 1 < i { assert c.pivots[m + 1] < c.pivots[i]; } }
    PassedUpTo(c.pivots[1..], c.pivots[0], s, m);
  }

  /** The block counts the documentation promises: the pool of stride `s` in the segment of
      pivot `m` has the base count times 2, 4 or 8 to the `m`, as a 32-bit word, or divided
      by it, but at least 1. */
  lemma {:induction false} SegmentCount(c: Config, i: nat, m: nat)
    requires Valid(c) && c.baseCount < U32 && m < |c.pivots|
    requires c.pivots[m] <= c.pivots[0] + i * c.step && (m + 1 < |c.pivots| ==> c.pivots[0] + i * c.step < c.pivots[m + 1])
    requires forall i, j | 0 <= i < j < |c.pivots| :: c.pivots[i] < c.pivots[j]
    ensures var n := c.baseCount;
            BlockCount(c, i) ==
            match c.func
            case Same => n
            case Mul2 => n * Pow2(m) % U32
            case Mul4 => n * Pow2(2 * m) % U32
            case Mul8 => n * Pow2(3 * m) % U32
            case Div2 => if n < Pow2(m) then 1 else n / Pow2(m)
            case Div4 => if n < Pow2(2 * m) then 1 else n / Pow2(2 * m)
            case Div8 => if n < Pow2(3 * m) then 1 else n / Pow2(3 * m)
  {
    SegmentPassed(c, m, StrideAt(c, i));
    CountInNumbers(c.baseCount, m);
  }

  /** ... and a single stride has the base count. */
  lemma {:induction false} OneStrideCount(c: Config)
    requires Valid(c) && c.pivots[0] == c.pivots[|c.pivots| - 1]
    ensures StrideCount(c) == 1 && StrideAt(c, 0) == c.pivots[0] && BlockCount(c, 0) == c.baseCount
  {
    DivModUnique(0, c.step, 0, 0);
    NonePassed(c.pivots, c.pivots[0]);
  }

  /** The strides run from the first pivot to the last in steps. */
  lemma {:induction false} StridesSpan(c: Config, i: nat)
    requires Valid(c)
    ensures StrideAt(c, i) == c.pivots[0] + i * c.step
    ensures i < StrideCount(c) <==> StrideAt(c, i) <= c.pivots[|c.pivots| - 1]
  {
    LastStride(c);
    if i < StrideCount(c) {
      MulMono(i, StrideCount(c) - 1, c.step);
    } else {
      MulMono(StrideCount(c), i, c.step);
      assert StrideCount(c) * c.step == (StrideCount(c) - 1) * c.step + c.step;
    }
  }

  lemma {:induction false} StrideOnGrid(c: Config, i: nat)
    requires Valid(c)
    ensures StrideAt(c, i) % c.step == 0 && StrideAt(c, i + 1) == StrideAt(c, i) + c.step
  {
    assert c.pivots[0] in c.pivots;
    ModOfMultiple(i, c.step, c.step);
    ModSum(c.pivots[0], i * c.step, c.step);
    assert (i + 1) * c.step == i * c.step + c.step;
  }

  lemma {:induction false} SingleStride(c: Config)
    requires Valid(c)
    ensures StrictlyIncreasing(c.pivots) || StrideCount(c) == 1
  {
    DivModUnique(0, c.step, 0, 0);
  }

  lemma {:induction false} PassedStep(c: Config, i: nat)
    requires Valid(c) && i + 1 < StrideCount(c)
    ensures PivotsPassed(c.pivots, c.pivots[0], StrideAt(c, i + 1)) ==
            PivotsPassed(c.pivots, c.pivots[0], StrideAt(c, i))
            + (if StrideAt(c, i + 1) in c.pivots[1..] then 1 else 0)
  {
    StrideOnGrid(c, i);
    SingleStride(c);
    var low, s := c.pivots[0], StrideAt(c, i);
    assert forall j | 0 <= j < |c.pivots| :: c.pivots[j] in c.pivots;
    NextStridePasses(c.pivots, c.step, low, s);
    assert c.pivots == [low] + c.pivots[1..];
    assert low < s + c.step;
  }

  /** The compile-time table of block counts, built by walking the strides and applying
      the capacity function at every pivot met. */
  method BlockCounts(c: Config) returns (counts: seq<nat>)
    requires Valid(c)
    ensures |counts| == StrideCount(c)
    ensures forall i | 0 <= i < |counts| :: counts[i] == BlockCount(c, i)
  {
    counts := [];
    var curr := c.baseCount;
    NonePassed(c.pivots, c.pivots[0]);
    assert StrideAt(c, 0) == c.pivots[0];
    var i := 0;
    while i < StrideCount(c)
      invariant 0 <= i <= StrideCount(c) && |counts| == i
      invariant forall j | 0 <= j < i :: counts[j] == BlockCount(c, j)
      invariant i < StrideCount(c) ==> curr == BlockCount(c, i)
    {
      counts := counts + [curr];
      if i + 1 < StrideCount(c) {
        PassedStep(c, i);
        if StrideAt(c, i + 1) in c.pivots[1..] {
          curr := NextCount(c.func, curr);
        }
      }
      i := i + 1;
    }
  }

  lemma {:induction false} LastStride(c: Config)
    requires Valid(c)
    ensures StrideAt(c, StrideCount(c) - 1) == c.pivots[|c.pivots| - 1]
    ensures c.pivots[0] <= c.pivots[|c.pivots| - 1]
  {
    var a, b := c.pivots[0], c.pivots[|c.pivots| - 1];
    assert a in c.pivots && b in c.pivots && a <= b;
    ModSum(b, a, c.step);
    DivTimes(b - a, c.step);
  }

  lemma {:induction false} PassedAtMost(pivots: seq<nat>, low: nat, s: nat)
    ensures PivotsPassed(pivots, low, s) <= |pivots|
  {
    if pivots != [] { PassedAtMost(pivots[1..], low, s); }
  }

  /** The last pool of a multi-stride metapool gets exactly the count that validation
      ended with. */
  lemma {:induction false} LastCountIsValidated(c: Config)
    requires Valid(c) && StrictlyIncreasing(c.pivots)
    ensures BlockCount(c, StrideCount(c) - 1) == CountAfter(c.func, c.baseCount, |c.pivots| - 1)
  {
    LastStride(c);
    AllPassed(c.pivots[1..], c.pivots[0], c.pivots[|c.pivots| - 1]);
  }

  /** Validation of the final count alone guarantees that no pool is empty, 32-bit
      wrap-around included. */
  lemma {:induction false} NoPoolEmpty(c: Config, i: nat)
    requires Valid(c)
    ensures BlockCount(c, i) >= 1
  {
    var s := StrideAt(c, i);
    PassedAtMost(c.pivots[1..], c.pivots[0], s);
    CountsPositive(c.func, c.baseCount, PivotsPassed(c.pivots, c.pivots[0], s), |c.pivots| - 1);
  }
}
