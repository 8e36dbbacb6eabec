/** Multiword arithmetic on 64-bit words (include/softfloat/softfloat-macros.h). */
module WideArithmetic {
  import opened Modular

  const HALF: int := 0x1_0000_0000
  const WORD: int := 0x1_0000_0000_0000_0000
  const SIGN: int := 0x8000_0000_0000_0000

  /** A uint64_t. */
  type Word = x: int | 0 <= x < 0x1_0000_0000_0000_0000

  function Wrap(x: int): Word {
    x % WORD
  }

  function Carry(c: bool): Word {
    if c then 1 else 0
  }

  function Value2(a0: Word, a1: Word): nat {
    a0 * WORD + a1
  }

  function Value3(a0: Word, a1: Word, a2: Word): nat {
    Value2(a0, a1) * WORD + a2
  }

  function Value4(a0: Word, a1: Word, a2: Word, a3: Word): nat {
    Value3(a0, a1, a2) * WORD + a3
  }

  // ---------------------------------------------------------------------------------------------------------------
  // Addition and subtraction

  const WORD2: int := 0x1_0000_0000_0000_0000_0000_0000_0000_0000
  const WORD3: int := 0x1_0000_0000_0000_0000_0000_0000_0000_0000_0000_0000_0000_0000

  /** Wrapping loses one word exactly when the sum is below an operand. */
  lemma WrapSum(a: Word, b: Word)
    ensures a + b == Carry(Wrap(a + b) < a) * WORD + Wrap(a + b)
    ensures a + b == Carry(Wrap(a + b) < b) * WORD + Wrap(a + b)
  {}

  lemma WrapDifference(a: Word, b: Word)
    ensures a - b == Wrap(a - b) - Carry(a < b) * WORD
  {}

  /** add128: exact modulo 2^128. */
  function Add128(a0: Word, a1: Word, b0: Word, b1: Word): (z: (Word, Word))
    ensures Value2(z.0, z.1) == (Value2(a0, a1) + Value2(b0, b1)) % WORD2
  {
    var z1 := Wrap(a1 + b1);
    var z0 := Wrap(a0 + b0 + Carry(z1 < a1));
    WrapSum(a1, b1);
    Residue(Value2(a0, a1) + Value2(b0, b1), (a0 + b0 + Carry(z1 < a1)) / WORD, WORD2, Value2(z0, z1));
    (z0, z1)
  }

  /** sub128: exact modulo 2^128. */
  function Sub128(a0: Word, a1: Word, b0: Word, b1: Word): (z: (Word, Word))
    ensures Value2(z.0, z.1) == (Value2(a0, a1) - Value2(b0, b1)) % WORD2
  {
    var z0, z1 := Wrap(a0 - b0 - Carry(a1 < b1)), Wrap(a1 - b1);
    WrapDifference(a1, b1);
    Residue(Value2(a0, a1) - Value2(b0, b1), (a0 - b0 - Carry(a1 < b1)) / WORD, WORD2, Value2(z0, z1));
    (z0, z1)
  }

  /** Three columns and what each passes on to the next. */
  lemma Total192(s0: int, s1: int, s2: int, z0: Word, z1: Word, z2: Word, k0: int, k1: int, k2: int)
    requires s2 == k2 * WORD + z2 && s1 + k2 == k1 * WORD + z1 && s0 + k1 == k0 * WORD + z0
    ensures (s0 * WORD2 + s1 * WORD + s2) % WORD3 == Value3(z0, z1, z2)
  {
    Residue(s0 * WORD2 + s1 * WORD + s2, k0, WORD3, Value3(z0, z1, z2));
  }

  lemma Value3Sums(a0: int, a1: int, a2: int, b0: int, b1: int, b2: int)
    ensures (a0 + b0) * WORD2 + (a1 + b1) * WORD + (a2 + b2) ==
            (a0 * WORD2 + a1 * WORD + a2) + (b0 * WORD2 + b1 * WORD + b2)
    ensures (a0 - b0) * WORD2 + (a1 - b1) * WORD + (a2 - b2) ==
            (a0 * WORD2 + a1 * WORD + a2) - (b0 * WORD2 + b1 * WORD + b2)
  {}

  lemma Sum192(
    a0: Word, a1: Word, a2: Word, b0: Word, b1: Word, b2: Word, z0: Word, z1: Word, z2: Word, k0: int, k1: int, k2: int)
    requires a2 + b2 == k2 * WORD + z2 && a1 + b1 + k2 == k1 * WORD + z1 && a0 + b0 + k1 == k0 * WORD + z0
    ensures Value3(z0, z1, z2) == (Value3(a0, a1, a2) + Value3(b0, b1, b2)) % WORD3
  {
    Total192(a0 + b0, a1 + b1, a2 + b2, z0, z1, z2, k0, k1, k2);
    Value3Sums(a0, a1, a2, b0, b1, b2);
  }

  lemma Difference192(
    a0: Word, a1: Word, a2: Word, b0: Word, b1: Word, b2: Word, z0: Word, z1: Word, z2: Word, k0: int, k1: int, k2: int)
    requires a2 - b2 == z2 - k2 * WORD && a1 - b1 - k2 == z1 - k1 * WORD && a0 - b0 - k1 == z0 - k0 * WORD
    ensures Value3(z0, z1, z2) == (Value3(a0, a1, a2) - Value3(b0, b1, b2)) % WORD3
  {
    Total192(a0 - b0, a1 - b1, a2 - b2, z0, z1, z2, 0 - k0, 0 - k1, 0 - k2);
    Value3Sums(a0, a1, a2, b0, b1, b2);
  }

  /** A sum of two words and its carry, found by comparing the sum with the second operand. */
  function AddWords(a: Word, b: Word): (z: (Word, Word))
    ensures a + b == z.1 * WORD + z.0 && z.1 <= 1
    ensures z.1 == Carry(z.0 < a)
  {
    (Wrap(a + b), Carry(Wrap(a + b) < b))
  }

  /** add192: exact modulo 2^192. */
  function Add192(a0: Word, a1: Word, a2: Word, b0: Word, b1: Word, b2: Word): (z: (Word, Word, Word))
    ensures Value3(z.0, z.1, z.2) == (Value3(a0, a1, a2) + Value3(b0, b1, b2)) % WORD3
  {
    var (z2, carry1) := AddWords(a2, b2);
    var (s1, carry0) := AddWords(a1, b1);
    var (s0, lost0) := AddWords(a0, b0);
    var (z1, carry2) := AddWords(s1, carry1);
    var (t0, lost1) := AddWords(s0, carry2);
    var (z0, lost2) := AddWords(t0, carry0);
    Sum192(a0, a1, a2, b0, b1, b2, z0, z1, z2, lost0 + lost1 + lost2, carry0 + carry2, carry1);
    (z0, z1, z2)
  }

  /** sub192: exact modulo 2^192. */
  function Sub192(a0: Word, a1: Word, a2: Word, b0: Word, b1: Word, b2: Word): (z: (Word, Word, Word))
    ensures Value3(z.0, z.1, z.2) == (Value3(a0, a1, a2) - Value3(b0, b1, b2)) % WORD3
  {
    var z2 := Wrap(a2 - b2);
    var borrow1 := Carry(a2 < b2);
    var s1 := Wrap(a1 - b1);
    var borrow0 := Carry(a1 < b1);
    var s0 := Wrap(a0 - b0);
    var t0 := Wrap(s0 - Carry(s1 < borrow1));
    var z1 := Wrap(s1 - borrow1);
    var z0 := Wrap(t0 - borrow0);
    WrapDifference(a2, b2);
    WrapDifference(a1, b1);
    WrapDifference(a0, b0);
    WrapDifference(s1, borrow1);
    WrapDifference(s0, Carry(s1 < borrow1));
    WrapDifference(t0, borrow0);
    var k := Carry(a0 < b0) + Carry(s0 < Carry(s1 < borrow1)) + Carry(t0 < borrow0);
    Difference192(a0, a1, a2, b0, b1, b2, z0, z1, z2, k, borrow0 + Carry(s1 < borrow1), borrow1);
    (z0, z1, z2)
  }

  // ---------------------------------------------------------------------------------------------------------------
  // Multiplication

  /** Schoolbook multiplication of two halves by two halves. */
  lemma SplitProduct(a: int, b: int, ah: int, al: int, bh: int, bl: int)
    requires a == ah * HALF + al && b == bh * HALF + bl
    ensures a * b == ah * bh * WORD + (al * bh + ah * bl) * HALF + al * bl
  {
    assert (ah * HALF + al) * (bh * HALF + bl) == ah * HALF * (bh * HALF + bl) + al * (bh * HALF + bl);
    assert ah * HALF * (bh * HALF + bl) == ah * bh * HALF * HALF + ah * bl * HALF;
    assert al * (bh * HALF + bl) == al * bh * HALF + al * bl;
  }

  /** The carries of mul64To128, for given partial products. */
  function Combine(hh: Word, lh: Word, hl: Word, ll: Word): (z: (Word, Word))
  {
    var m := Wrap(lh + hl);
    var z0 := Wrap(hh + Carry(m < hl) * HALF + m / HALF);
    var shifted := Wrap(m * HALF);
    var z1 := Wrap(ll + shifted);
    (Wrap(z0 + Carry(z1 < shifted)), z1)
  }

  /** Shifting a word left by 32 keeps its lower half and loses its upper half. */
  lemma ShiftHalf(m: Word)
    ensures Wrap(m * HALF) == m % HALF * HALF && m * HALF == m / HALF * WORD + m % HALF * HALF
  {
    Residue(m * HALF, m / HALF, WORD, m % HALF * HALF);
  }

  lemma WrapSmall(x: int)
    requires 0 <= x < WORD
    ensures Wrap(x) == x
  {}

  /** The partial products of two 32-bit halves add up without loss as long as the product fits 128 bits. */
  lemma CombineExact(hh: Word, lh: Word, hl: Word, ll: Word)
    requires hh * WORD + (lh + hl) * HALF + ll < WORD2
    ensures var z := Combine(hh, lh, hl, ll);
            Value2(z.0, z.1) == hh * WORD + (lh + hl) * HALF + ll
  {
    var m := Wrap(lh + hl);
    WrapSum(lh, hl);
    ShiftHalf(m);
    var shifted := Wrap(m * HALF);
    WrapSum(ll, shifted);
    CombineTop(hh, Carry(m < hl), m / HALF, Carry(Wrap(ll + shifted) < shifted), Wrap(ll + shifted));
  }

  lemma CombineTop(hh: Word, over: int, mh: int, c: int, low: Word)
    requires 0 <= over <= 1 && 0 <= mh && 0 <= c <= 1
    requires (hh + over * HALF + mh + c) * WORD + low < WORD2
    ensures Wrap(Wrap(hh + over * HALF + mh) + c) == hh + over * HALF + mh + c
  {
    var top := hh + over * HALF + mh;
    WrapSmall(top);
    WrapSmall(top + c);
  }

  /** mul64To128: the exact product. */
  function Mul64To128(a: Word, b: Word): (z: (Word, Word))
    ensures Value2(z.0, z.1) == a * b
  {
    var ah, al, bh, bl := a / HALF, a % HALF, b / HALF, b % HALF;
    ProductFacts(a, b);
    Combine(ah * bh, al * bh, ah * bl, al * bl)
  }

  lemma PartialProducts(ah: int, al: int, bh: int, bl: int)
    requires 0 <= ah < HALF && 0 <= al < HALF && 0 <= bh < HALF && 0 <= bl < HALF
    ensures 0 <= ah * bh < WORD && 0 <= al * bh < WORD && 0 <= ah * bl < WORD && 0 <= al * bl < WORD
    ensures ah * bh * WORD + (al * bh + ah * bl) * HALF + al * bl < WORD2
  {
    HalfProduct(ah, bh);
    HalfProduct(al, bh);
    HalfProduct(ah, bl);
    HalfProduct(al, bl);
  }

  lemma HalfProduct(x: int, y: int)
    requires 0 <= x < HALF && 0 <= y < HALF
    ensures 0 <= x * y <= (HALF - 1) * (HALF - 1)
  {
    MulBound(x, y, HALF - 1, HALF - 1);
  }

  lemma ProductFacts(a: Word, b: Word)
    ensures var ah, al, bh, bl := a / HALF, a % HALF, b / HALF, b % HALF;
            && 0 <= ah * bh < WORD && 0 <= al * bh < WORD && 0 <= ah * bl < WORD && 0 <= al * bl < WORD
            && var z := Combine(ah * bh, al * bh, ah * bl, al * bl);
               Value2(z.0, z.1) == a * b
  {
    var ah, al, bh, bl := a / HALF, a % HALF, b / HALF, b % HALF;
    PartialProducts(ah, al, bh, bl);
    SplitProduct(a, b, ah, al, bh, bl);
    CombineExact(ah * bh, al * bh, ah * bl, al * bl);
  }

  lemma AddFits(p0: Word, p1: Word, c: Word)
    requires Value2(p0, p1) + c < WORD2
    ensures var z := Add128(p0, p1, 0, c);
            Value2(z.0, z.1) == Value2(p0, p1) + c
  {
    Residue(Value2(p0, p1) + c, 0, WORD2, Value2(p0, p1) + c);
  }

  /** Adding one word to a product of two words does not overflow. */
  lemma AddToProduct(a: Word, b: Word, c: Word)
    ensures var p := Mul64To128(a, b);
            var z := Add128(p.0, p.1, 0, c);
            Value2(z.0, z.1) == a * b + c
  {
    var p := Mul64To128(a, b);
    MulBound(a, b, WORD - 1, WORD - 1);
    AddFits(p.0, p.1, c);
  }

  /** mul128By64To192: the exact product. */
  function Mul128By64To192(a0: Word, a1: Word, b: Word): (z: (Word, Word, Word))
    ensures Value3(z.0, z.1, z.2) == Value2(a0, a1) * b
  {
    var (z1, z2) := Mul64To128(a1, b);
    var (z0, more1) := Mul64To128(a0, b);
    var (y0, y1) := Add128(z0, more1, 0, z1);
    AddToProduct(a0, b, z1);
    Distribute(a0, a1, b);
    (y0, y1, z2)
  }

  lemma Distribute(a0: int, a1: int, b: int)
    ensures (a0 * WORD + a1) * b == a0 * b * WORD + a1 * b
  {}

  lemma Distribute2(a0: int, a1: int, b0: int, b1: int)
    ensures (a0 * WORD + a1) * (b0 * WORD + b1) == a0 * b0 * WORD2 + (a0 * b1 + a1 * b0) * WORD + a1 * b1
  {
    Distribute(a0, a1, b0 * WORD + b1);
    Distribute(b0, b1, a0);
    Distribute(b0, b1, a1);
  }

  /** mul128To256: the exact product. */
  function Mul128To256(a0: Word, a1: Word, b0: Word, b1: Word): (z: (Word, Word, Word, Word))
    ensures Value4(z.0, z.1, z.2, z.3) == Value2(a0, a1) * Value2(b0, b1)
  {
    var (z2, z3) := Mul64To128(a1, b1);
    var (p1, more2) := Mul64To128(a1, b0);
    var (y1, y2) := Add128(p1, more2, 0, z2);
    var (p0, more1) := Mul64To128(a0, b0);
    var (x0, x1) := Add128(p0, more1, 0, y1);
    var (q1, q2) := Mul64To128(a0, b1);
    var (r1, r2) := Add128(q1, q2, 0, y2);
    var (w0, w1) := Add128(x0, x1, 0, r1);
    Mul128Sum(a0, a1, b0, b1, y1, y2, x0, x1, r1, r2, z2, z3);
    (w0, w1, r2, z3)
  }

  lemma Mul128Sum(
    a0: Word, a1: Word, b0: Word, b1: Word, y1: Word, y2: Word, x0: Word, x1: Word, r1: Word, r2: Word, z2: Word,
    z3: Word)
    requires (z2, z3) == Mul64To128(a1, b1)
    requires (y1, y2) == Add128(Mul64To128(a1, b0).0, Mul64To128(a1, b0).1, 0, z2)
    requires (x0, x1) == Add128(Mul64To128(a0, b0).0, Mul64To128(a0, b0).1, 0, y1)
    requires (r1, r2) == Add128(Mul64To128(a0, b1).0, Mul64To128(a0, b1).1, 0, y2)
    ensures var w := Add128(x0, x1, 0, r1);
            Value4(w.0, w.1, r2, z3) == Value2(a0, a1) * Value2(b0, b1)
  {
    AddToProduct(a1, b0, z2);
    AddToProduct(a0, b0, y1);
    AddToProduct(a0, b1, y2);
    Distribute2(a0, a1, b0, b1);
    MulBound(Value2(a0, a1), Value2(b0, b1), WORD2 - 1, WORD2 - 1);
    var p00, p01, p10, p11 := a0 * b0, a0 * b1, a1 * b0, a1 * b1;
    Columns(p00, p01, p10, p11, y1, y2, x0, x1, r1, r2, z2, z3);
  }

  /** The columns of a long multiplication of two by two words, given what each column adds up to. */
  lemma Columns(
    p00: int, p01: int, p10: int, p11: int, y1: Word, y2: Word, x0: Word, x1: Word, r1: Word, r2: Word, z2: Word,
    z3: Word)
    requires Value2(z2, z3) == p11 && Value2(y1, y2) == p10 + z2
    requires Value2(x0, x1) == p00 + y1 && Value2(r1, r2) == p01 + y2
    requires p00 * WORD2 + (p01 + p10) * WORD + p11 <= (WORD2 - 1) * (WORD2 - 1)
    ensures var w := Add128(x0, x1, 0, r1);
            Value4(w.0, w.1, r2, z3) == p00 * WORD2 + (p01 + p10) * WORD + p11
  {
    var h := Value2(x0, x1) + r1;
    assert h * WORD2 + r2 * WORD + z3 == p00 * WORD2 + (p01 + p10) * WORD + p11;
    assert 0 <= h < WORD2;
    Residue(h, 0, WORD2, h);
  }
}
