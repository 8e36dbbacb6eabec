/** Facts about products, quotients and remainders. */
module Modular {

  lemma MulBound(x: nat, y: nat, m: nat, n: nat)
    requires x <= m && y <= n
    ensures x * y <= m * n
  {
    assert x * y <= m * y;
    assert m * y <= m * n;
  }

  lemma AtLeastOnce(d: int, m: int)
    requires d >= 1 && m >= 0
    ensures d * m >= m
  {
    assert d * m == (d - 1) * m + m;
  }

  lemma Difference(k: int, q: int, m: int)
    ensures (k - q) * m == k * m - q * m
  {}

  /** Quotient and remainder are unique. */
  lemma Residue(x: int, q: int, m: int, r: int)
    requires x == q * m + r && 0 <= r < m
    ensures x / m == q && x % m == r
  {
    var k, t := x / m, x % m;
    Difference(k, q, m);
    assert x == k * m + t;
    if k > q { AtLeastOnce(k - q, m); }
    if k < q { AtLeastOnce(q - k, m); Difference(q, k, m); }
  }

  /** The next position in a ring of `n` positions. */
  function Next(a: nat, n: nat): nat {
    if a + 1 == n then 0 else a + 1
  }

  /** The position `i` steps further in a ring. */
  function Ring(a: nat, i: nat, n: nat): (r: nat)
    requires a < n
    ensures r < n
    decreases i
  {
    if i == 0 then a else Ring(Next(a, n), i - 1, n)
  }

  lemma NextMod(a: nat, n: nat)
    requires a < n
    ensures (a + 1) % n == Next(a, n)
  {
    if a + 1 == n { Residue(a + 1, 1, n, 0); } else { Residue(a + 1, 0, n, a + 1); }
  }

  /** Stepping through a ring is addition modulo its size. */
  lemma {:induction false} RingMod(a: nat, i: nat, n: nat)
    requires a < n
    ensures Ring(a, i, n) == (a + i) % n
    decreases i
  {
    if i == 0 {
      Residue(a, 0, n, a);
    } else {
      RingMod(Next(a, n), i - 1, n);
      if a + 1 == n {
        var q, r := (i - 1) / n, (i - 1) % n;
        assert i - 1 == n * q + r;
        Difference(q + 1, q, n);
        Residue(a + i, q + 1, n, r);
      }
    }
  }

  /** Within one round the positions are what they look like. */
  lemma {:induction false} RingOnce(a: nat, i: nat, n: nat)
    requires a < n && i <= n
    ensures Ring(a, i, n) == if a + i < n then a + i else a + i - n
    decreases i
  {
    if i > 0 { RingOnce(Next(a, n), i - 1, n); }
  }
}
