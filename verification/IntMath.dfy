/** Integer powers on machine words. */
module IntMath {
  import opened Bits

  function Pow(m: nat, k: nat): (p: nat)
    ensures m >= 1 ==> p >= 1
  {
    if k == 0 then 1 else m * Pow(m, k - 1)
  }

  /** The laws that make `Pow` the power. */
  lemma {:induction false} PowLaws(m: nat, j: nat, k: nat)
    ensures Pow(m, 1) == m && Pow(m, j + k) == Pow(m, j) * Pow(m, k)
  {
    assert Pow(m, 0) == 1;
    if j > 0 {
      PowLaws(m, j - 1, k);
      assert m * (Pow(m, j - 1) * Pow(m, k)) == m * Pow(m, j - 1) * Pow(m, k);
    }
  }

  /** Powers of 2, 4 and 8 as powers of two. */
  lemma {:induction false} PowersOfTwo(k: nat)
    ensures Pow(2, k) == Pow2(k) && Pow(4, k) == Pow2(2 * k) && Pow(8, k) == Pow2(3 * k)
  {
    if k > 0 {
      PowersOfTwo(k - 1);
      assert Pow2(2 * k) == 2 * Pow2(2 * k - 1) && Pow2(2 * k - 1) == 2 * Pow2(2 * (k - 1));
      assert Pow2(3 * k) == 2 * Pow2(3 * k - 1) && Pow2(3 * k - 1) == 2 * Pow2(3 * k - 2);
      assert Pow2(3 * k - 2) == 2 * Pow2(3 * (k - 1));
    }
  }

  /** `a` and `b` are the same word of `size` values. */
  predicate SameWord(a: int, b: int, size: nat)
    requires size > 0
  {
    a % size == b % size
  }

  lemma {:induction false} ModTimes(x: nat, c: nat, size: nat)
    requires size > 0
    ensures x % size * c % size == x * c % size
  {
    var q, r := x / size, x % size;
    var q', r' := r * c / size, r * c % size;
    assert x == size * q + r && r * c == size * q' + r';
    assert x * c == size * (q * c + q') + r' by {
      assert (size * q + r) * c == size * (q * c) + r * c;
    }
    DivModUnique(x * c, size, q * c + q', r');
  }

  lemma {:induction false} SameTimes(a: nat, b: nat, c: nat, size: nat)
    requires size > 0 && SameWord(a, b, size)
    ensures SameWord(a * c, b * c, size) && SameWord(c * a, c * b, size)
  {
    ModTimes(a, c, size);
    ModTimes(b, c, size);
  }

  lemma {:induction false} SameReduced(a: nat, size: nat)
    requires size > 0
    ensures SameWord(a % size, a, size)
  {
    DivModUnique(a % size, size, 0, a % size);
  }

  lemma {:induction false} SamePow(a: nat, b: nat, e: nat, size: nat)
    requires size > 0 && SameWord(a, b, size)
    ensures SameWord(Pow(a, e), Pow(b, e), size)
  {
    if e > 0 {
      SamePow(a, b, e - 1, size);
      SameTimes(Pow(a, e - 1), Pow(b, e - 1), a, size);
      SameTimes(a, b, Pow(b, e - 1), size);
    }
  }

  lemma {:induction false} Regroup(b: nat, p: nat, o: nat)
    ensures b * (b * (p * o)) == b * b * p * o
  {}

  /** Halving the exponent squares the base. */
  lemma {:induction false} PowHalves(b: nat, e: nat)
    ensures Pow(b, e) == Pow(b * b, e / 2) * (if e % 2 == 1 then b else 1)
  {
    if e >= 2 {
      PowHalves(b, e - 2);
      assert (e - 2) / 2 == e / 2 - 1 && (e - 2) % 2 == e % 2;
      Regroup(b, Pow(b * b, e / 2 - 1), if e % 2 == 1 then b else 1);
    }
  }

  /** The factor an odd exponent sets aside. */
  function Factored(result: nat, b: nat, e: nat): nat {
    if e % 2 == 1 then result * b else result
  }

  lemma {:induction false} RoundKeepsPower(result: nat, b: nat, e: nat)
    ensures Factored(result, b, e) * Pow(b * b, e / 2) == result * Pow(b, e)
  {
    PowHalves(b, e);
    if e % 2 == 1 { MoveFactor(result, b, Pow(b * b, e / 2)); }
  }

  lemma {:induction false} MoveFactor(r: nat, b: nat, p: nat)
    ensures r * b * p == r * (p * b)
  {}

  /** One round of the loop on words. */
  lemma {:induction false} PowRound(result: nat, b: nat, e: nat, next: nat, b': nat, size: nat)
    requires size > 0 && SameWord(next, Factored(result, b, e), size) && SameWord(b', b * b, size)
    ensures SameWord(next * Pow(b', e / 2), result * Pow(b, e), size)
  {
    RoundKeepsPower(result, b, e);
    SamePow(b', b * b, e / 2, size);
    SameTimes(Pow(b', e / 2), Pow(b * b, e / 2), Factored(result, b, e), size);
    SameTimes(next, Factored(result, b, e), Pow(b', e / 2), size);
  }

  /** The loop body of `int_pow`. */
  method PowStep(result: nat, b: nat, e: nat, size: nat) returns (next: nat, squared: nat)
    requires size > 0 && result < size
    ensures next < size && squared < size
    ensures SameWord(next * Pow(squared, e / 2), result * Pow(b, e), size)
  {
    next := result;
    MaskIsMod(e, 1);
    if And(e, 1) != 0 {
      next := result * b % size;
      SameReduced(result * b, size);
    }
    squared := b * b % size;
    SameReduced(b * b, size);
    PowRound(result, b, e, next, squared, size);
  }

  /** `int_pow` on unsigned words: repeated squaring, every product wrapped, computes the
      power modulo the word size. */
  method IntPow(base: nat, exponent: nat, size: nat) returns (result: nat)
    requires size > 1 && base < size && exponent < size
    ensures result == Pow(base, exponent) % size
  {
    result := 1;
    var b, e := base, exponent;
    while e != 0
      invariant result < size
      invariant SameWord(result * Pow(b, e), Pow(base, exponent), size)
      decreases e
    {
      result, b := PowStep(result, b, e, size);
      assert Shr(e, 1) == e / 2;
      e := Shr(e, 1);
    }
    assert Pow(b, e) == 1;
    DivModUnique(result, size, 0, result);
  }
}
