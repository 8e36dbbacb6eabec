/** Bitwise operations on natural numbers. */
module Bitwise {
  import opened Modular

  /** Bitwise or. */
  function Or(a: nat, b: nat): (r: nat)
    ensures r == 0 <==> a == 0 && b == 0
    decreases a
  {
    if a == 0 then b else 2 * Or(a / 2, b / 2) + (if a % 2 == 1 || b % 2 == 1 then 1 else 0)
  }

  lemma {:induction false} OrZero(a: nat)
    ensures Or(a, 0) == a
  {
    if a > 0 { OrZero(a / 2); }
  }

  lemma OrOne(a: nat)
    ensures Or(a, 1) == a + 1 - a % 2
  {
    if a > 0 { OrZero(a / 2); }
  }

  /** Bitwise and. */
  function And(a: nat, b: nat): (r: nat)
    ensures r <= a && r <= b
  {
    if a == 0 || b == 0 then 0 else 2 * And(a / 2, b / 2) + (if a % 2 == 1 && b % 2 == 1 then 1 else 0)
  }

  /** Bitwise exclusive or. */
  function Xor(a: nat, b: nat): nat
    decreases a
  {
    if a == 0 then b else 2 * Xor(a / 2, b / 2) + (if a % 2 != b % 2 then 1 else 0)
  }

  /** Bit `i` is set. */
  predicate HasBit(a: nat, i: nat) {
    if i == 0 then a % 2 == 1 else HasBit(a / 2, i - 1)
  }

  lemma {:induction false} NoBits(i: nat)
    ensures !HasBit(0, i)
  {
    if i > 0 { NoBits(i - 1); }
  }

  lemma {:induction false} OrBits(a: nat, b: nat, i: nat)
    ensures HasBit(Or(a, b), i) <==> HasBit(a, i) || HasBit(b, i)
    decreases i
  {
    if a == 0 {
      NoBits(i);
    } else if i > 0 {
      assert Or(a, b) / 2 == Or(a / 2, b / 2);
      OrBits(a / 2, b / 2, i - 1);
    }
  }

  lemma {:induction false} XorBits(a: nat, b: nat, i: nat)
    ensures HasBit(Xor(a, b), i) <==> HasBit(a, i) != HasBit(b, i)
    decreases i
  {
    if a == 0 {
      NoBits(i);
    } else if i > 0 {
      assert Xor(a, b) / 2 == Xor(a / 2, b / 2);
      XorBits(a / 2, b / 2, i - 1);
    }
  }

  lemma {:induction false} CommonBit(a: nat, b: nat, i: nat)
    requires HasBit(a, i) && HasBit(b, i)
    ensures And(a, b) != 0
    decreases i
  {
    NoBits(i);
    if i > 0 { CommonBit(a / 2, b / 2, i - 1); }
  }

  lemma {:induction false} FindCommonBit(a: nat, b: nat) returns (i: nat)
    requires And(a, b) != 0
    ensures HasBit(a, i) && HasBit(b, i)
    decreases a
  {
    if a % 2 == 1 && b % 2 == 1 {
      i := 0;
    } else {
      i := FindCommonBit(a / 2, b / 2);
      i := i + 1;
    }
  }

  /** Bit `i` is set in both. */
  predicate Common(a: nat, b: nat, i: nat) {
    HasBit(a, i) && HasBit(b, i)
  }

  /** Two numbers have no bit in common exactly when their conjunction is zero. */
  lemma AndBits(a: nat, b: nat)
    ensures And(a, b) != 0 <==> exists i: nat :: Common(a, b, i)
  {
    if And(a, b) != 0 {
      var i := FindCommonBit(a, b);
      assert Common(a, b, i);
    } else if exists i: nat :: Common(a, b, i) {
      var i: nat :| Common(a, b, i);
      CommonBit(a, b, i);
    }
  }

  /** The bits of 16, 256 and 272. */
  lemma SingleBits(i: nat)
    ensures HasBit(16, i) <==> i == 4
    ensures HasBit(256, i) <==> i == 8
    ensures HasBit(272, i) <==> i == 4 || i == 8
  {
    FourDown(16, i);
    FourDown(256, i);
    FourDown(272, i);
    if i >= 4 {
      var j := i - 4;
      FourDown(16, j);
      if j >= 1 { NoBits(j - 1); }
      if j >= 4 {
        if j >= 5 { NoBits(j - 5); }
        assert HasBit(17, j) == HasBit(8, j - 1) == HasBit(16, j);
      } else if j >= 1 {
        assert HasBit(17, j) == HasBit(8, j - 1) == HasBit(16, j);
      }
    }
  }

  /** A multiple of 16 has the bits of its quotient, four places up. */
  lemma FourDown(a: nat, i: nat)
    requires a % 16 == 0
    ensures HasBit(a, i) <==> i >= 4 && HasBit(a / 16, i - 4)
  {
    var b, c, d := a / 2, a / 4, a / 8;
    assert b / 2 == c && c / 2 == d && d / 2 == a / 16;
    assert a % 2 == 0 && b % 2 == 0 && c % 2 == 0 && d % 2 == 0;
    if i > 0 { assert HasBit(a, i) == HasBit(b, i - 1); }
    if i > 1 { assert HasBit(b, i - 1) == HasBit(c, i - 2); }
    if i > 2 { assert HasBit(c, i - 2) == HasBit(d, i - 3); }
    if i > 3 { assert HasBit(d, i - 3) == HasBit(a / 16, i - 4); }
  }

  predicate IsPower(n: nat) {
    n == 1 || (n > 1 && n % 2 == 0 && IsPower(n / 2))
  }

  lemma {:induction false} AndSymmetric(a: nat, b: nat)
    ensures And(a, b) == And(b, a)
  {
    if a != 0 && b != 0 { AndSymmetric(a / 2, b / 2); }
  }

  /** Masking with a power of two less one is taking the remainder. */
  lemma {:induction false} MaskIsRemainder(a: nat, n: nat)
    requires IsPower(n)
    ensures And(a, n - 1) == a % n
    decreases n
  {
    if n == 1 {
      Residue(a, a, 1, 0);
    } else if a == 0 {
      Residue(0, 0, n, 0);
    } else {
      var m := n / 2;
      MaskIsRemainder(a / 2, m);
      MaskStep(a, m);
      HalfRemainder(a, m);
    }
  }

  lemma MaskStep(a: nat, m: nat)
    requires a > 0 && m > 0
    ensures And(a, 2 * m - 1) == 2 * And(a / 2, m - 1) + a % 2
  {
    assert (2 * m - 1) / 2 == m - 1 && (2 * m - 1) % 2 == 1;
  }

  lemma HalfRemainder(a: nat, m: nat)
    requires m > 0
    ensures a % (2 * m) == 2 * (a / 2 % m) + a % 2
  {
    var k, r := a / 2 / m, a / 2 % m;
    assert a / 2 == k * m + r;
    assert a == k * (2 * m) + (2 * r + a % 2);
    Residue(a, k, 2 * m, 2 * r + a % 2);
  }
}
