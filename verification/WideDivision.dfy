/** estimateDiv128To64 of include/softfloat/softfloat-macros.h: a quotient estimate and its error bound. */
module WideDivision {
  import opened Bitwise
  import opened Modular
  import opened WideArithmetic
  import opened WordBits

  /** A quotient of a 128-bit by a 64-bit number fits 64 bits exactly when the upper word is below the divisor. */
  lemma QuotientFits(a0: Word, a1: Word, b: Word)
    requires b > 0
    ensures Value2(a0, a1) / b < WORD <==> a0 < b
  {
    var a := Value2(a0, a1);
    var q := a / b;
    assert a == b * q + a % b;
    if q < WORD {
      MulBound(b, q, b, WORD - 1);
      assert b * (WORD - 1) == b * WORD - b;
    } else {
      MulBound(b, WORD, b, q);
    }
  }

  /** The upper half of the first estimate: a0 / b0, but at most 2^32 - 1. */
  function FirstDigit(a0: Word, b0: int): int
    requires b0 > 0
  {
    if b0 * HALF <= a0 then HALF - 1 else a0 / b0
  }

  /** The first estimate is too large by less than 2^96 and too small by less than one step. */
  lemma FirstRemainder(a0: Word, a1: Word, b: Word)
    requires SIGN <= b && a0 < b
    ensures var d := FirstDigit(a0, b / HALF);
            0 <= d < HALF && -(HALF * WORD) < Value2(a0, a1) - b * HALF * d < b * HALF
  {
    var b0, bl := b / HALF, b % HALF;
    var d := FirstDigit(a0, b0);
    if b0 * HALF <= a0 {
      assert b * HALF * d == b * WORD - b * HALF;
    } else {
      var r := a0 % b0;
      assert a0 == b0 * d + r;
      assert 0 <= d < HALF by { DigitBound(a0, b0, d, r); }
      assert b * HALF * d == b0 * d * WORD + bl * d * HALF by { SplitStep(b0, bl, d); }
      assert Value2(a0, a1) - b * HALF * d == r * WORD + a1 - bl * d * HALF;
      HalfProduct(bl, d);
      assert r * WORD + a1 < b0 * WORD <= b * HALF;
    }
  }

  lemma DigitBound(a0: int, b0: int, d: int, r: int)
    requires 0 < b0 && 0 <= a0 < b0 * HALF && a0 == b0 * d + r && 0 <= r < b0
    ensures 0 <= d < HALF
  {
    if d < 0 { AtLeastOnce(-d, b0); }
    if d >= HALF { MulBound(b0, HALF, b0, d); }
  }

  lemma SplitStep(b0: int, bl: int, d: int)
    ensures (b0 * HALF + bl) * HALF * d == b0 * d * WORD + bl * d * HALF
  {
    assert (b0 * HALF + bl) * HALF == b0 * WORD + bl * HALF;
    assert (b0 * WORD + bl * HALF) * d == b0 * WORD * d + bl * HALF * d;
  }

  /** The second digit, computed from the upper 64 bits of the remainder. */
  function SecondDigit(r: nat, b0: int): int
    requires b0 > 0
  {
    if b0 * HALF <= r then HALF - 1 else r / b0
  }

  /** Dividing by the upper half of the divisor overestimates a digit by at most two. */
  lemma SecondError(rem: nat, b: Word)
    requires SIGN <= b && rem < b * HALF
    ensures var d := SecondDigit(rem / HALF, b / HALF);
            rem / b <= d <= rem / b + 2 && 0 <= d < HALF
  {
    var b0 := b / HALF;
    var r := rem / HALF;
    var q := rem / b;
    var t := rem % b;
    assert rem == b * q + t;
    assert 0 <= q < HALF by { DigitBound(rem, b, q, t); }
    if b0 * HALF <= r {
      LowerBound(rem, b, b0, q, t);
      assert q >= HALF - 3;
    } else {
      var d, u := r / b0, r % b0;
      assert r == b0 * d + u;
      DigitBound(r, b0, d, u);
      assert q <= d by { Undershoot(rem, b, b0, q, t, d, u); }
      assert d <= q + 2 by { Overshoot(rem, b, b0, q, t, d, u); }
    }
  }

  lemma LowerBound(rem: nat, b: Word, b0: int, q: int, t: int)
    requires b0 == b / HALF && SIGN <= b && b0 * HALF <= rem / HALF
    requires rem == b * q + t && 0 <= t < b && 0 <= q < HALF
    ensures q >= HALF - 3
  {
    assert b0 * WORD <= rem;
    assert b <= b0 * HALF + (HALF - 1);
    if q < HALF - 3 {
      MulBound(b, q, b, HALF - 4);
    }
  }

  lemma Undershoot(rem: nat, b: Word, b0: int, q: int, t: int, d: int, u: int)
    requires b0 == b / HALF && SIGN <= b && rem == b * q + t && 0 <= t < b && 0 <= q < HALF
    requires rem / HALF == b0 * d + u && 0 <= u < b0 && 0 <= d < HALF
    ensures q <= d
  {
    var bl := b % HALF;
    assert b * q == b0 * q * HALF + bl * q by { Split(b0, bl, q); }
    assert bl * q >= 0;
    assert b0 * q <= rem / HALF;
    if q > d {
      MulBound(b0, d + 1, b0, q);
    }
  }

  lemma Overshoot(rem: nat, b: Word, b0: int, q: int, t: int, d: int, u: int)
    requires b0 == b / HALF && SIGN <= b && rem == b * q + t && 0 <= t < b && 0 <= q < HALF
    requires rem / HALF == b0 * d + u && 0 <= u < b0 && 0 <= d < HALF
    ensures d <= q + 2
  {
    if d > q + 2 {
      MulBound(b0, q + 3, b0, d);
      assert b0 * (q + 3) == b0 * q + 3 * b0;
      assert (b0 * q + 3 * b0) * HALF <= rem;
      var bl := b % HALF;
      assert b * q == b0 * q * HALF + bl * q by { Split(b0, bl, q); }
      HalfProduct(bl, q);
      MulBound(bl, q, HALF - 1, q);
    }
  }

  lemma Split(b0: int, bl: int, q: int)
    ensures (b0 * HALF + bl) * q == b0 * q * HALF + bl * q
  {}

  /** The sign bit of a remainder that was computed modulo 2^128 is right as long as the remainder is small. */
  lemma SignTest(rem: int, r0: Word, r1: Word)
    requires -(HALF * WORD) < rem < HALF * WORD && Value2(r0, r1) == rem % WORD2
    ensures r0 >= SIGN <==> rem < 0
    ensures rem >= 0 ==> Value2(r0, r1) == rem && r0 < HALF
  {
    Residue(rem, if rem < 0 then -1 else 0, WORD2, if rem < 0 then rem + WORD2 else rem);
  }

  /** One correction step: the divisor times 2^32, in two words, is added modulo 2^128. */
  lemma CorrectionStep(rem: int, r0: Word, r1: Word, b: Word)
    requires Value2(r0, r1) == rem % WORD2
    ensures var s := Add128(r0, r1, b / HALF, Wrap(b * HALF));
            Value2(s.0, s.1) == (rem + b * HALF) % WORD2
  {
    ShiftHalf(b);
    var k := rem / WORD2;
    var x := rem % WORD2 + b * HALF;
    assert rem + b * HALF == k * WORD2 + x;
    Residue(rem + b * HALF, k + x / WORD2, WORD2, x % WORD2);
  }

  /** The middle 64 bits of a remainder below 2^96; the shift loses nothing. */
  lemma MiddleWord(r0: Word, r1: Word)
    requires r0 < HALF
    ensures r0 * HALF < WORD && Or(r0 * HALF, r1 / HALF) == Value2(r0, r1) / HALF
  {
    Pow2Values();
    Residue(r0 * HALF, r0, HALF, 0);
    OrDisjoint(r0 * HALF, r1 / HALF, 32);
  }

  lemma QuotientOfSum(a: nat, b: Word, z: nat, rem: nat)
    requires b > 0 && a == b * z + rem
    ensures a / b == z + rem / b
  {
    assert rem == b * (rem / b) + rem % b;
    assert b * z + b * (rem / b) == (z + rem / b) * b;
    Residue(a, z + rem / b, b, rem % b);
  }

  /** The estimate `z`, a multiple of 2^32, leaves the remainder `rem`, which `r0` and `r1` hold modulo 2^128. */
  ghost predicate Tracks(a: int, b: Word, z: int, rem: int, r0: Word, r1: Word) {
    && 0 <= z < WORD && z % HALF == 0 && rem == a - b * z
    && -(HALF * WORD) < rem < b * HALF
    && Value2(r0, r1) == rem % WORD2
  }

  lemma TracksStart(a: int, b: Word, d: int, z: Word, r0: Word, r1: Word)
    requires 0 <= d < HALF && z == d * HALF && -(HALF * WORD) < a - b * HALF * d < b * HALF
    requires Value2(r0, r1) == (a - b * z) % WORD2
    ensures Tracks(a, b, z, a - b * z, r0, r1)
  {
    Residue(z, d, HALF, 0);
    StepTimes(b, d);
  }

  lemma StepTimes(b: int, d: int)
    ensures b * (d * HALF) == b * HALF * d
  {}

  lemma OneStepLess(b: int, z: int)
    ensures b * (z - HALF) == b * z - b * HALF
  {}

  /** A negative remainder means that something was subtracted. */
  lemma BelowZero(a: nat, b: nat, z: nat)
    requires a - b * z < 0 && z % HALF == 0
    ensures z >= HALF && (z - HALF) % HALF == 0
  {
    assert z == 0 ==> b * z == 0;
  }

  lemma TracksStep(a: nat, b: Word, z: Word, rem: int, r0: Word, r1: Word, s0: Word, s1: Word)
    requires Tracks(a, b, z, rem, r0, r1) && rem < 0
    requires Value2(s0, s1) == (rem + b * HALF) % WORD2
    ensures z >= HALF && Tracks(a, b, z - HALF, rem + b * HALF, s0, s1)
  {
    OneStepLess(b, z);
    BelowZero(a, b, z);
  }

  lemma TracksEnd(a: nat, b: Word, z: Word, rem: nat, digit: int)
    requires SIGN <= b && 0 <= z < WORD && z % HALF == 0 && rem == a - b * z && rem < b * HALF
    requires digit == SecondDigit(rem / HALF, b / HALF)
    ensures 0 <= digit && Or(z, digit) < WORD && a / b <= Or(z, digit) <= a / b + 2
  {
    SecondError(rem, b);
    Pow2Values();
    OrDisjoint(z, digit, 32);
    QuotientOfSum(a, b, z, rem);
    LastMultiple(z);
  }

  lemma LastMultiple(z: Word)
    requires z % HALF == 0
    ensures z <= WORD - HALF
  {}

  /** estimateDiv128To64: between the truncated quotient and two above it, or the largest word if it does not fit. The
      correction loop runs at most twice. */
  method EstimateDiv128To64(a0: Word, a1: Word, b: Word) returns (z: Word, ghost rounds: nat)
    requires SIGN <= b
    ensures Value2(a0, a1) / b >= WORD ==> z == WORD - 1
    ensures Value2(a0, a1) / b < WORD ==> Value2(a0, a1) / b <= z <= Value2(a0, a1) / b + 2
    ensures rounds <= 2
  {
    rounds := 0;
    QuotientFits(a0, a1, b);
    if b <= a0 {
      z := WORD - 1;
      return;
    }
    var b0 := b / HALF;
    FirstRemainder(a0, a1, b);
    z := FirstDigit(a0, b0) * HALF;
    var rem0: Word, rem1: Word := FirstSubtraction(a0, a1, b, z);
    ghost var a := Value2(a0, a1);
    ghost var rem := a - b * z;
    TracksStart(a, b, FirstDigit(a0, b0), z, rem0, rem1);
    while rem0 >= SIGN
      invariant Tracks(a, b, z, rem, rem0, rem1)
      invariant rounds <= 2 && rem > rounds * (SIGN * HALF) - HALF * WORD
      decreases z
    {
      SignTest(rem, rem0, rem1);
      var s0: Word, s1: Word := Correction(rem, rem0, rem1, b);
      TracksStep(a, b, z, rem, rem0, rem1, s0, s1);
      z, rem0, rem1 := z - HALF, s0, s1;
      rem := rem + b * HALF;
      rounds := rounds + 1;
    }
    SignTest(rem, rem0, rem1);
    MiddleWord(rem0, rem1);
    var middle := Or(rem0 * HALF, rem1 / HALF);
    var digit := SecondDigit(middle, b0);
    TracksEnd(a, b, z, rem, digit);
    z := Or(z, digit);
  }

  method FirstSubtraction(a0: Word, a1: Word, b: Word, z: Word) returns (rem0: Word, rem1: Word)
    ensures Value2(rem0, rem1) == (Value2(a0, a1) - b * z) % WORD2
  {
    var (term0, term1) := Mul64To128(b, z);
    var r := Sub128(a0, a1, term0, term1);
    rem0, rem1 := r.0, r.1;
  }

  method Correction(ghost rem: int, rem0: Word, rem1: Word, b: Word) returns (s0: Word, s1: Word)
    requires Value2(rem0, rem1) == rem % WORD2
    ensures Value2(s0, s1) == (rem + b * HALF) % WORD2
  {
    var b0, b1 := b / HALF, Wrap(b * HALF);
    CorrectionStep(rem, rem0, rem1, b);
    var r := Add128(rem0, rem1, b0, b1);
    s0, s1 := r.0, r.1;
  }
}
