/** Shifts and bitwise or on 64-bit words, and the sticky right shifts of include/softfloat/softfloat-macros.h. */
module WordBits {
  import opened Modular
  import opened WideArithmetic
  import opened Bitwise

  function Pow2(n: nat): (p: nat)
    ensures p >= 1
  {
    if n == 0 then 1 else 2 * Pow2(n - 1)
  }

  lemma {:induction false} Pow2Add(m: nat, n: nat)
    ensures Pow2(m + n) == Pow2(m) * Pow2(n)
  {
    if m > 0 {
      Pow2Add(m - 1, n);
      assert Pow2(m) * Pow2(n) == 2 * (Pow2(m - 1) * Pow2(n));
    }
  }

  lemma Pow2Square(n: nat, m: nat, v: nat)
    requires Pow2(n) == v && m == 2 * n
    ensures Pow2(m) == v * v
  {
    Pow2Add(n, n);
  }

  lemma Pow2Values()
    ensures Pow2(32) == HALF && Pow2(64) == WORD && Pow2(128) == WORD2
  {
    Pow2Square(0, 0, 1);
    assert Pow2(1) == 2;
    Pow2Square(1, 2, 2);
    Pow2Square(2, 4, 4);
    Pow2Square(4, 8, 16);
    Pow2Square(8, 16, 0x100);
    Pow2Square(16, 32, 0x1_0000);
    Pow2Square(32, 64, HALF);
    Pow2Square(64, 128, WORD);
  }

  lemma HalveMultiple(a: nat, p: nat)
    requires p > 0 && a % (2 * p) == 0
    ensures a % 2 == 0 && a / 2 % p == 0
  {
    var k := a / (2 * p);
    assert a == (2 * p) * k + a % (2 * p);
    assert (2 * p) * k == 2 * (p * k);
    assert a / 2 == p * k;
    Residue(p * k, k, p, 0);
  }

  /** Or of a multiple of 2^k and a number below 2^k is their sum. */
  lemma {:induction false} OrDisjoint(a: nat, b: nat, k: nat)
    requires a % Pow2(k) == 0 && b < Pow2(k)
    ensures Or(a, b) == a + b
  {
    if a > 0 {
      if k == 0 {
        OrZero(a);
      } else {
        HalveMultiple(a, Pow2(k - 1));
        OrDisjoint(a / 2, b / 2, k - 1);
      }
    }
  }

  function Shl(a: Word, n: nat): Word {
    Wrap(a * Pow2(n))
  }

  function Shr(a: Word, n: nat): (r: Word) {
    ShrBound(a, Pow2(n));
    a / Pow2(n)
  }

  lemma ShrBound(a: nat, p: nat)
    requires p >= 1
    ensures 0 <= a / p <= a
  {
    var k := a / p;
    assert a == p * k + a % p;
    AtLeastOnce(p, k);
  }

  /** The right shift that keeps in the lowest bit whether anything was lost. */
  function Jam(a: nat, n: nat): nat {
    Or(Quotient(a, n), Carry(a % Pow2(n) != 0))
  }

  function Quotient(a: nat, n: nat): nat {
    ShrBound(a, Pow2(n));
    a / Pow2(n)
  }

  // ---------------------------------------------------------------------------------------------------------------
  // Splitting shifts over words

  /** Dividing a two-digit number in base w = p*q by p. */
  lemma DivideDigits(a: nat, b: nat, p: nat, q: nat, w: nat)
    requires p >= 1 && q >= 1 && w == p * q
    ensures (a * w + b) / p == (a / p) * w + (a % p) * q + b / p
    ensures (a * w + b) % p == b % p
  {
    var x := a * w + b;
    var k := a * q + b / p;
    assert a * (p * q) == (a * q) * p;
    assert (a * q) * p + (b / p) * p == k * p by { Difference(k, b / p, p); }
    Residue(x, k, p, b % p);
    assert a == p * (a / p) + a % p;
    assert a * q == (p * (a / p)) * q + (a % p) * q;
    assert (p * (a / p)) * q == (a / p) * (p * q);
  }

  /** Dividing a number by p*q is dividing by p and then by q; the remainder is put together from both. */
  lemma DivideTwice(a: nat, p: nat, q: nat)
    requires p >= 1 && q >= 1
    ensures p * q >= 1
    ensures a / (p * q) == a / p / q && a % (p * q) == (a / p % q) * p + a % p
  {
    var x, r := a / p, a % p;
    var y, s := x / q, x % q;
    AtLeastOnce(p, q);
    assert a == p * x + r && x == q * y + s;
    assert p * x == p * (q * y) + p * s;
    assert p * (q * y) == y * (p * q);
    assert p * s + r < p * q by {
      assert p * s <= p * (q - 1) by { MulBound(p, s, p, q - 1); }
      assert p * (q - 1) == p * q - p;
    }
    Residue(a, y, p * q, s * p + r);
  }

  /** Multiplying by q modulo p*q keeps the last digit in base p. */
  lemma ShiftDigits(a: nat, p: nat, q: nat, w: nat)
    requires p >= 1 && q >= 1 && w == p * q
    ensures 0 <= a % p * q <= w - q && a * q % w == a % p * q && a % p * q % q == 0
    ensures a % p * q == 0 <==> a % p == 0
  {
    var h, l := a / p, a % p;
    assert a == p * h + l;
    assert a * q == h * (p * q) + l * q;
    MulBound(l, q, p - 1, q);
    assert (p - 1) * q == p * q - q;
    Residue(a * q, h, w, l * q);
    Residue(l * q, l, q, 0);
    if l > 0 { AtLeastOnce(l, q); }
  }

  lemma ShlDigits(a: Word, m: nat, n: nat)
    requires m + n == 64
    ensures Pow2(m) * Pow2(n) == WORD
    ensures Shl(a, n) == a % Pow2(m) * Pow2(n) <= WORD - Pow2(n)
    ensures Shl(a, n) % Pow2(n) == 0
    ensures Shl(a, n) == 0 <==> a % Pow2(m) == 0
  {
    Pow2Add(m, n);
    Pow2Values();
    ShiftDigits(a, Pow2(m), Pow2(n), WORD);
  }

  // ---------------------------------------------------------------------------------------------------------------
  // The routines

  /** shift128RightJamming. */
  function Shift128RightJamming(a0: Word, a1: Word, count: nat): (z: (nat, nat)) {
    if count == 0 then (a0, a1)
    else if count < 64 then
      var neg := 64 - count;
      (Shr(a0, count), Or(Or(Shl(a0, neg), Shr(a1, count)), Carry(Shl(a1, neg) != 0)))
    else if count == 64 then (0, Or(a0, Carry(a1 != 0)))
    else if count < 128 then
      (0, Or(Shr(a0, count - 64), Carry(Or(Shl(a0, 128 - count), a1) != 0)))
    else (0, Carry(Or(a0, a1) != 0))
  }

  lemma SameParity(hi: nat, lo: nat)
    requires lo < WORD
    ensures (hi * WORD + lo) % 2 == lo % 2 && lo + 1 - lo % 2 < WORD
  {
    var k := lo / 2;
    assert hi * WORD == hi * SIGN * 2;
    Residue(hi * WORD + lo, hi * SIGN + k, 2, lo % 2);
    assert k < SIGN;
  }

  /** Setting the lowest bit does not reach beyond the lower word. */
  lemma StickyLow(hi: nat, lo: nat, lost: bool)
    requires lo < WORD
    ensures Or(hi * WORD + lo, Carry(lost)) == hi * WORD + Or(lo, Carry(lost))
    ensures Or(lo, Carry(lost)) < WORD
  {
    if lost {
      SameParity(hi, lo);
      OrOne(hi * WORD + lo);
      OrOne(lo);
    } else {
      OrZero(hi * WORD + lo);
      OrZero(lo);
    }
  }

  lemma WithinWord(a0: Word, a1: Word, count: nat)
    requires 0 < count < 64
    ensures var lo := Or(Shl(a0, 64 - count), Shr(a1, count));
            lo < WORD && Quotient(Value2(a0, a1), count) == Shr(a0, count) * WORD + lo
    ensures Value2(a0, a1) % Pow2(count) != 0 <==> Shl(a1, 64 - count) != 0
  {
    var neg := 64 - count;
    var p, q := Pow2(count), Pow2(neg);
    ShlDigits(a0, count, neg);
    ShlDigits(a1, count, neg);
    WithinLow(a0, a1, count);
    Digits(a0, a1, p, q, Shl(a0, neg), Shr(a0, count), Shr(a1, count));
  }

  lemma Digits(a0: Word, a1: Word, p: nat, q: nat, shifted: int, high: int, low: int)
    requires p >= 1 && q >= 1 && p * q == WORD && shifted == a0 % p * q && high == a0 / p && low == a1 / p
    ensures Value2(a0, a1) / p == high * WORD + (shifted + low) && Value2(a0, a1) % p == a1 % p
  {
    DivideDigits(a0, a1, p, q, WORD);
  }

  lemma WithinLow(a0: Word, a1: Word, count: nat)
    requires 0 < count < 64
    ensures Or(Shl(a0, 64 - count), Shr(a1, count)) == Shl(a0, 64 - count) + Shr(a1, count)
    ensures Shr(a1, count) < Pow2(64 - count)
  {
    var neg := 64 - count;
    ShlDigits(a0, count, neg);
    DivideLess(a1, Pow2(count), Pow2(neg));
    OrDisjoint(Shl(a0, neg), Shr(a1, count), neg);
  }

  lemma JamWithinWord(a0: Word, a1: Word, count: nat)
    requires 0 < count < 64
    ensures var z := Shift128RightJamming(a0, a1, count);
            z.1 < WORD && z.0 * WORD + z.1 == Jam(Value2(a0, a1), count)
  {
    WithinWord(a0, a1, count);
    StickyLow(Shr(a0, count), Or(Shl(a0, 64 - count), Shr(a1, count)), Shl(a1, 64 - count) != 0);
  }

  lemma DivideLess(a: nat, p: nat, q: nat)
    requires p >= 1 && a < p * q
    ensures a / p < q
  {
    var k := a / p;
    assert a == p * k + a % p;
    if k >= q { MulBound(p, q, p, k); }
  }

  lemma JamBeyondWord(a0: Word, a1: Word, count: nat)
    requires 64 <= count < 128
    ensures var z := Shift128RightJamming(a0, a1, count);
            z.0 * WORD + z.1 == Jam(Value2(a0, a1), count)
  {
    var k := count - 64;
    var p := Pow2(k);
    Pow2Add(64, k);
    Pow2Values();
    var a := Value2(a0, a1);
    Residue(a, a0, WORD, a1);
    DivideTwice(a, WORD, p);
    assert Pow2(count) == WORD * p;
    assert a / Pow2(count) == a0 / p && a % Pow2(count) == a0 % p * WORD + a1;
    if count == 64 {
      assert p == 1;
    } else {
      ShlDigits(a0, k, 64 - k);
    }
  }

  lemma {:induction false} Pow2Monotone(m: nat, n: nat)
    requires m <= n
    ensures Pow2(m) <= Pow2(n)
  {
    if m < n { Pow2Monotone(m, n - 1); }
  }

  /** shift128RightJamming is the sticky shift of the 128-bit value, for every count. */
  lemma Shift128JamExact(a0: Word, a1: Word, count: nat)
    ensures var z := Shift128RightJamming(a0, a1, count);
            z.0 < WORD && z.1 < WORD && z.0 * WORD + z.1 == Jam(Value2(a0, a1), count)
  {
    var z := Shift128RightJamming(a0, a1, count);
    if count == 0 {
      OrZero(Value2(a0, a1));
    } else if count < 64 {
      JamWithinWord(a0, a1, count);
    } else if count < 128 {
      JamBeyondWord(a0, a1, count);
      StickyLow(0, if count == 64 then a0 else Shr(a0, count - 64), true);
      StickyLow(0, if count == 64 then a0 else Shr(a0, count - 64), false);
    } else {
      Pow2Values();
      Pow2Monotone(128, count);
      Residue(Value2(a0, a1), 0, Pow2(count), Value2(a0, a1));
    }
  }

  lemma LostTwice(a: nat, p: nat, q: nat)
    requires p > 0 && q > 0
    ensures p * q > 0 && (a % (p * q) != 0 <==> a / p % q != 0 || a % p != 0)
  {
    DivideTwice(a, p, q);
    var y := a / p % q;
    if y > 0 { AtLeastOnce(y, p); }
  }

  /** Sticky shifts compose: two in a row lose nothing that one would not. */
  lemma JamCompose(a: nat, m: nat, n: nat)
    ensures Jam(Jam(a, m), n) == Jam(a, m + n)
  {
    var p, q := Pow2(m), Pow2(n);
    var x, r := a / p, a % p;
    DivideTwice(a, p, q);
    Pow2Add(m, n);
    LostTwice(a, p, q);
    var j := Jam(a, m);
    OrOne(x);
    OrZero(x);
    if n == 0 {
      OrZero(j);
    } else {
      StickyDivides(x, n, r != 0);
    }
  }

  lemma SameDigits(x0: int, x1: int, y0: int, y1: int)
    requires 0 <= x1 < WORD && 0 <= y1 < WORD && x0 * WORD + x1 == y0 * WORD + y1
    ensures x0 == y0 && x1 == y1
  {}

  /** So the routine may be applied in steps: the words come out the same. */
  lemma Shift128Compose(a0: Word, a1: Word, m: nat, n: nat, y0: Word, y1: Word)
    requires (y0, y1) == Shift128RightJamming(a0, a1, m)
    ensures Shift128RightJamming(y0, y1, n) == Shift128RightJamming(a0, a1, m + n)
  {
    Shift128JamExact(a0, a1, m);
    Shift128JamExact(y0, y1, n);
    Shift128JamExact(a0, a1, m + n);
    JamCompose(Value2(a0, a1), m, n);
    var z, t := Shift128RightJamming(y0, y1, n), Shift128RightJamming(a0, a1, m + n);
    SameDigits(z.0, z.1, t.0, t.1);
  }

  /** The sticky bit below another shift changes what is lost, not what is kept. */
  lemma StickyDivides(x: nat, n: nat, lost: bool)
    requires n > 0
    ensures var j := Or(x, Carry(lost));
            j / Pow2(n) == x / Pow2(n) && (j % Pow2(n) != 0 <==> x % Pow2(n) != 0 || lost)
  {
    var j := Or(x, Carry(lost));
    OrOne(x);
    OrZero(x);
    var h := Pow2(n - 1);
    DivideTwice(x, 2, h);
    DivideTwice(j, 2, h);
    assert j / 2 == x / 2;
  }
}
