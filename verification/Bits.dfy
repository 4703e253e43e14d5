/** Unsigned integer arithmetic as the repository uses it: powers of two, bitwise
    `and`, shifts, and 32-bit wrap-around. Machine words are natural numbers; `And`
    is the bitwise operator written out bit by bit, so every identity that the code
    relies on (mask = remainder, shift = quotient, ...) is a theorem here. */
module Bits {

  const U16: nat := 0x1_0000
  const U32: nat := 0x1_0000_0000

  function Pow2(k: nat): (p: nat)
    ensures p >= 1
  {
    if k == 0 then 1 else 2 * Pow2(k - 1)
  }

  /** Bitwise `a & b`. */
  function And(a: nat, b: nat): (r: nat)
    ensures r <= a && r <= b
  {
    if a == 0 || b == 0 then 0
    else 2 * And(a / 2, b / 2) + (if a % 2 == 1 && b % 2 == 1 then 1 else 0)
  }

  /** `x >> k`. */
  function Shr(x: nat, k: nat): nat {
    if k == 0 then x else Shr(x / 2, k - 1)
  }

  /** `~x` on a 32-bit word. */
  function Not32(x: nat): nat
    requires x < U32
  {
    U32 - 1 - x
  }

  /** `a + b` on 32-bit words. */
  function Add32(a: nat, b: nat): nat {
    (a + b) % U32
  }

  /** `a - b` on 32-bit words. */
  function Sub32(a: nat, b: nat): nat {
    (a - b) % U32
  }

  ghost predicate IsPow2(n: nat) {
    exists k: nat :: n == Pow2(k)
  }

  /** The least multiple of `m` that is at least `x`. */
  function AlignUp(x: nat, m: nat): nat
    requires m > 0
  {
    (x + m - 1) / m * m
  }

  // ---------------------------------------------------------------- division facts

  /** A product with a positive factor `d` lies strictly between `-d` and `d` only
      when the other factor is zero. */
  lemma {:induction false} SmallProduct(d: int, k: int)
    requires d > 0 && -d < d * k < d
    ensures k == 0
  {}

  lemma {:induction false} ProductAboveNegated(d: int, k: int)
    requires d > 0 && d * k > -d
    ensures k >= 0
  {}

  lemma {:induction false} DivModUnique(x: int, d: int, q: int, r: int)
    requires d > 0 && x == d * q + r && 0 <= r < d
    ensures x / d == q && x % d == r
  {
    var q', r' := x / d, x % d;
    assert x == d * q' + r';
    assert d * (q - q') == d * q - d * q';
    SmallProduct(d, q - q');
  }

  lemma {:induction false} MulMono(a: nat, b: nat, c: nat)
    requires a <= b
    ensures a * c <= b * c
  {}

  /** `AlignUp` meets its description. */
  lemma {:induction false} AlignUpSpec(x: nat, m: nat)
    requires m > 0
    ensures x <= AlignUp(x, m) < x + m
    ensures AlignUp(x, m) % m == 0
  {
    var q, r := (x + m - 1) / m, (x + m - 1) % m;
    assert x + m - 1 == m * q + r;
    assert AlignUp(x, m) == q * m;
    DivModUnique(q * m, m, q, 0);
  }

  /** Any multiple of `m` that is at least `x` is at least `AlignUp(x, m)`. */
  lemma {:induction false} AlignUpLeast(x: nat, m: nat, y: nat)
    requires m > 0 && y % m == 0 && x <= y
    ensures AlignUp(x, m) <= y
  {
    AlignUpSpec(x, m);
    ModSum(y, AlignUp(x, m), m);
    var k := (y - AlignUp(x, m)) / m;
    assert y - AlignUp(x, m) == m * k;
    ProductAboveNegated(m, k);
  }

  lemma {:induction false} ModOfMultiple(a: nat, m: nat, x: int)
    requires m > 0 && x % m == 0
    ensures (a * x) % m == 0
  {
    var q := x / m;
    assert a * x == m * (a * q) by {
      assert x == m * q;
      assert a * (m * q) == m * (a * q);
    }
    DivModUnique(a * x, m, a * q, 0);
  }

  /** Divisibility is transitive. */
  lemma {:induction false} ModTrans(x: int, a: nat, b: nat)
    requires a > 0 && b > 0 && b % a == 0 && x % b == 0
    ensures x % a == 0
  {
    var q := x / b;
    assert x == q * b;
    if q >= 0 {
      ModOfMultiple(q, a, b);
    } else {
      ModOfMultiple(-q, a, b);
      assert (-q) * b == -x;
      var t := (-x) / a;
      assert -x == a * t;
      assert x == a * (-t);
      DivModUnique(x, a, -t, 0);
    }
  }

  lemma {:induction false} ModSum(x: int, y: int, m: nat)
    requires m > 0 && x % m == 0 && y % m == 0
    ensures (x + y) % m == 0 && (x - y) % m == 0
  {
    var p, q := x / m, y / m;
    assert x == m * p && y == m * q;
    assert x + y == m * (p + q) && x - y == m * (p - q);
    DivModUnique(x + y, m, p + q, 0);
    DivModUnique(x - y, m, p - q, 0);
  }

  // ---------------------------------------------------------------- masks and shifts

  lemma {:induction false} Pow2Add(a: nat, b: nat)
    ensures Pow2(a + b) == Pow2(a) * Pow2(b)
  {
    if a > 0 { Pow2Add(a - 1, b); }
  }

  lemma {:induction false} Pow2Mono(a: nat, b: nat)
    requires a <= b
    ensures Pow2(a) <= Pow2(b)
    decreases b
  {
    if a < b { Pow2Mono(a, b - 1); }
  }

  /** Of two powers of two the smaller divides the larger. */
  lemma {:induction false} Pow2Divides(a: nat, b: nat)
    requires IsPow2(a) && IsPow2(b) && a <= b
    ensures b % a == 0
  {
    var i: nat :| a == Pow2(i);
    var j: nat :| b == Pow2(j);
    if j < i {
      Pow2Mono(j, i - 1);
      assert false;
    } else {
      Pow2Add(i, j - i);
      DivModUnique(b, a, Pow2(j - i), 0);
    }
  }

  lemma {:induction false} HalveDivMod(x: nat, h: nat)
    requires h > 0
    ensures x / (2 * h) == x / 2 / h
    ensures x % (2 * h) == 2 * (x / 2 % h) + x % 2
  {
    var q, r := x / 2 / h, x / 2 % h;
    assert x / 2 == h * q + r;
    assert 2 * (h * q) == (2 * h) * q;
    DivModUnique(x, 2 * h, q, 2 * r + x % 2);
  }

  /** `x & (2^k - 1)` is the remainder of `x` by `2^k`. */
  lemma {:induction false} MaskIsMod(x: nat, k: nat)
    ensures And(x, Pow2(k) - 1) == x % Pow2(k)
  {
    if k > 0 {
      var h := Pow2(k - 1);
      assert (Pow2(k) - 1) / 2 == h - 1 && (Pow2(k) - 1) % 2 == 1;
      MaskIsMod(x / 2, k - 1);
      HalveDivMod(x, h);
    }
  }

  /** A mask and its complement split a word: `(x & m) + (x & ~m) == x`. */
  lemma {:induction false} AndSplit(x: nat, m: nat, w: nat)
    requires x < Pow2(w) && m < Pow2(w)
    ensures And(x, m) + And(x, Pow2(w) - 1 - m) == x
  {
    if w > 0 {
      var c := Pow2(w) - 1 - m;
      AndSplit(x / 2, m / 2, w - 1);
      assert c / 2 == Pow2(w - 1) - 1 - m / 2;
      assert c % 2 == 1 - m % 2;
    }
  }

  lemma {:induction false} Pow2Of32()
    ensures Pow2(32) == U32
  {
    Pow2Add(16, 16);
    assert Pow2(8) == 256;
    Pow2Add(8, 8);
  }

  lemma {:induction false} DivTimes(x: int, d: nat)
    requires d > 0
    ensures x / d * d == x - x % d
  {}

  lemma {:induction false} ClearLowBitsAt(x: nat, k: nat, w: nat)
    requires x < Pow2(w) && k <= w
    ensures Pow2(k) <= Pow2(w)
    ensures And(x, Pow2(w) - 1 - (Pow2(k) - 1)) == x / Pow2(k) * Pow2(k)
  {
    Pow2Mono(k, w);
    AndSplit(x, Pow2(k) - 1, w);
    MaskIsMod(x, k);
    DivTimes(x, Pow2(k));
  }

  /** `x & ~(p - 1)` rounds a 32-bit word down to a multiple of the power of two `p`. */
  lemma {:induction false} ClearLowBits(x: nat, p: nat)
    requires x < U32 && IsPow2(p) && p <= U32
    ensures And(x, Not32(p - 1)) == x / p * p
  {
    var k: nat :| p == Pow2(k);
    Pow2Of32();
    if k > 32 {
      Pow2Mono(33, k);
      assert false;
    } else {
      ClearLowBitsAt(x, k, 32);
    }
  }

  /** The code's rounding idiom `(x + p - 1) & ~(p - 1)`: right while the sum does
      not wrap. */
  lemma {:induction false} RoundUpMask(x: nat, p: nat)
    requires IsPow2(p) && x + p - 1 < U32
    ensures And(Add32(x, p - 1), Not32(p - 1)) == AlignUp(x, p)
  {
    var y := x + p - 1;
    assert Add32(x, p - 1) == y;
    ClearLowBits(y, p);
  }

  /** `x >> k` divides by `2^k`. */
  lemma {:induction false} ShiftIsDiv(x: nat, k: nat)
    ensures Shr(x, k) == x / Pow2(k)
  {
    if k > 0 {
      ShiftIsDiv(x / 2, k - 1);
      var h := Pow2(k - 1);
      HalveDivMod(x, h);
    }
  }

  lemma {:induction false} AndSelf(a: nat)
    ensures And(a, a) == a
  {
    if a > 0 { AndSelf(a / 2); }
  }

  /** The code's test for powers of two, `(n & (n - 1)) == 0`, is exact on positive
      words. */
  lemma {:induction false} PowerOfTwoTest(n: nat)
    requires n > 0
    ensures And(n, n - 1) == 0 <==> IsPow2(n)
  {
    if n == 1 {
      assert n == Pow2(0);
    } else if n % 2 == 0 {
      var m := n / 2;
      assert (n - 1) / 2 == m - 1 && (n - 1) % 2 == 1;
      PowerOfTwoTest(m);
      if IsPow2(m) {
        var k: nat :| m == Pow2(k);
        assert n == Pow2(k + 1);
      }
      if IsPow2(n) {
        var k: nat :| n == Pow2(k);
        assert m == Pow2(k - 1);
      }
    } else {
      AndSelf(n / 2);
      assert (n - 1) / 2 == n / 2;
      assert !IsPow2(n) by {
        forall k: nat ensures n != Pow2(k) { assert k == 0 || Pow2(k) == 2 * Pow2(k - 1); }
      }
    }
  }

  // ---------------------------------------------------------------- math.hpp loops

  lemma {:induction false} HalfGiB()
    ensures 0x2000_0000 == Pow2(29) && IsPow2(0x2000_0000)
  {
    assert Pow2(7) == 128;
    Pow2Add(7, 7);
    Pow2Add(14, 14);
    Pow2Add(28, 1);
    assert Pow2(1) == 2;
    assert 0x2000_0000 == Pow2(29);
  }

  lemma {:induction false} HalvingStep(n: nat, p: nat, m: nat)
    requires p * m <= n < p * (m + 1)
    ensures 2 * p * (m / 2) <= n < 2 * p * (m / 2 + 1)
  {
    var h := m / 2;
    MulMono(2 * h, m, p);
    MulMono(m + 1, 2 * h + 2, p);
    assert p * (2 * h) == 2 * p * h && p * (2 * h + 2) == 2 * p * (h + 1);
  }

  /** A power of two lying in `[2^r, 2^(r+1))` is `2^r`. */
  lemma {:induction false} OnlyPowerBetween(n: nat, r: nat)
    requires IsPow2(n) && Pow2(r) <= n < Pow2(r + 1)
    ensures n == Pow2(r)
  {
    var k: nat :| n == Pow2(k);
    if k < r { Pow2Mono(k + 1, r); }
    if k > r { Pow2Mono(r + 1, k); }
  }

  /** `log2_exact`: counts halvings. */
  method Log2Exact(n: nat) returns (result: nat)
    ensures n > 0 ==> Pow2(result) <= n < Pow2(result + 1)
    ensures IsPow2(n) ==> n == Pow2(result)
  {
    var m := n;
    result := 0;
    while m > 1
      invariant n > 0 ==> m > 0 && Pow2(result) * m <= n < Pow2(result) * (m + 1)
    {
      HalvingStep(n, Pow2(result), m);
      m := m / 2;
      result := result + 1;
    }
    if IsPow2(n) { OnlyPowerBetween(n, result); }
  }
}
