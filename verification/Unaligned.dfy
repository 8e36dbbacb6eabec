/** The unaligned loads and stores swl, swr, lwl and lwr (src/cpu/exec/memory.h), on the machine of module
    Translation. */
module Unaligned {
  import opened Basics
  import opened Bitwise
  import opened Modular
  import opened WordBits
  import opened Translation
  import opened MmuCache

  const WORD32: nat := 0x1_0000_0000

  /** 256 to the power `n`, for the byte counts in a word. */
  function Bytes(n: nat): (p: nat)
    ensures p >= 1
  {
    if n == 0 then 1 else if n == 1 then 0x100 else if n == 2 then 0x1_0000 else if n == 3 then 0x100_0000 else WORD32
  }

  function Load(a: nat, len: nat): Op {
    Op.Load(a / PAGE, a % PAGE, len)
  }

  function Store(a: nat, len: nat, data: nat): Op {
    Op.Store(a / PAGE, a % PAGE, len, data)
  }

  function WithBadVaddr(s: State, a: nat): State {
    if s.exception then s.(cp0 := s.cp0.(badvaddr := a)) else s
  }

  /** swl of the value `v` at address `a`. */
  function Swl(w: World, s: State, a: nat, v: nat): Option<State> {
    var idx := a % 4;
    var r := Step(w, s, Store(a - idx, idx + 1, v / Bytes(3 - idx)));
    if r.None? then None else Some(WithBadVaddr(r.value.1, a))
  }

  /** swr. */
  function Swr(w: World, s: State, a: nat, v: nat): Option<State> {
    var r := Step(w, s, Store(a, 4 - a % 4, v));
    if r.None? then None else Some(r.value.1)
  }

  /** What lwl puts into a register that held `v`, for `len` bytes read as `data`. */
  function MergeLeft(v: nat, data: nat, len: nat): nat
    requires 1 <= len <= 4
  {
    if len < 4 then Or(data * Bytes(4 - len) % WORD32, v * Bytes(len) % WORD32 / Bytes(len)) else data
  }

  /** The same for lwr. */
  function MergeRight(v: nat, data: nat, idx: nat): nat
    requires idx <= 3
  {
    var low := data * Bytes(idx) % WORD32 / Bytes(idx);
    if idx > 0 then Or(low, v / Bytes(4 - idx) * Bytes(4 - idx) % WORD32) else low
  }

  /** lwl: the new value of the register and the state. */
  function Lwl(w: World, s: State, a: nat, v: nat): Option<(nat, State)> {
    var idx := a % 4;
    var r := Step(w, s, Load(a - idx, idx + 1));
    if r.None? then None
    else if r.value.1.exception then Some((v, WithBadVaddr(r.value.1, a)))
    else Some((MergeLeft(v, r.value.0, idx + 1), r.value.1))
  }

  /** lwr. */
  function Lwr(w: World, s: State, a: nat, v: nat): Option<(nat, State)> {
    var r := Step(w, s, Load(a, 4 - a % 4));
    if r.None? then None
    else if r.value.1.exception then Some((v, r.value.1))
    else Some((MergeRight(v, r.value.0, a % 4), r.value.1))
  }

  // ---------------------------------------------------------------------------------------------------------------
  // Mapped pages

  /** The page of address `a` is mapped, for stores or for loads at least, to memory. */
  ghost predicate Mapped(w: World, s: State, store: bool, a: nat) {
    var t := Translate(s.tlb, s.cp0.asid, s.cp0.erl, a / PAGE, store);
    t.To? && t.frame < SEGMENT && w.region(t.frame) == Ram
  }

  /** The physical address of a mapped address. */
  ghost function Phys(s: State, a: nat): nat {
    var t := Translate(s.tlb, s.cp0.asid, s.cp0.erl, a / PAGE, false);
    if t.To? then t.frame * PAGE + a % PAGE else 0
  }

  lemma LoadWhereStored(s: State, page: nat)
    ensures var t := Translate(s.tlb, s.cp0.asid, s.cp0.erl, page, true);
            t.To? ==> Translate(s.tlb, s.cp0.asid, s.cp0.erl, page, false) == t
  {}

  lemma StoreMapped(w: World, s: State, a: nat, len: nat, data: nat)
    requires Mapped(w, s, true, a)
    ensures Step(w, s, Store(a, len, data)) == Some((0, s.(mem := WriteBytes(s.mem, Phys(s, a), len, data))))
  {
    LoadWhereStored(s, a / PAGE);
  }

  lemma LoadMapped(w: World, s: State, a: nat, len: nat)
    requires Mapped(w, s, false, a)
    ensures Step(w, s, Load(a, len)) == Some((ReadBytes(s.mem, Phys(s, a), len), s))
  {}

  /** Within a word the addresses stay on one page, and so do the physical ones. */
  lemma SameWord(w: World, s: State, store: bool, a: nat)
    requires a % 4 != 3
    ensures Mapped(w, s, store, a) <==> Mapped(w, s, store, a + 1)
    ensures Mapped(w, s, store, a) ==> Phys(s, a + 1) == Phys(s, a) + 1
  {
    LoadWhereStored(s, a / PAGE);
    assert (a + 1) / PAGE == a / PAGE && (a + 1) % PAGE == a % PAGE + 1;
  }

  lemma TopSegment(a: nat)
    requires a < WORD32
    ensures a + 3 >= WORD32 ==> a / PAGE / SEGMENT % 8 == 7
  {}

  /** The last addresses are not mapped, so a mapped word does not wrap around. */
  lemma NoWrap(w: World, s: State, store: bool, a: nat)
    requires a < WORD32 && Mapped(w, s, store, a)
    ensures a + 3 < WORD32 && (a + 3) % WORD32 == a + 3
  {
    TopSegment(a);
  }

  // ---------------------------------------------------------------------------------------------------------------
  // Bytes of a word

  function WordByte(v: nat, i: nat): nat {
    v / Bytes(i) % 256
  }

  /** A word is made of its bytes. */
  lemma WordOfBytes(v: nat)
    requires v < WORD32
    ensures v == WordByte(v, 0) + 0x100 * WordByte(v, 1) + 0x1_0000 * WordByte(v, 2) + 0x100_0000 * WordByte(v, 3)
  {
    var q1 := v / 256;
    var q2 := q1 / 256;
    assert q2 == v / 0x1_0000 && q2 / 256 == v / 0x100_0000;
  }

  /** The four bytes of `v` at four addresses. */
  function FourBytes(mem: map<nat, nat>, p0: nat, p1: nat, p2: nat, p3: nat, v: nat): map<nat, nat> {
    mem[p0 := WordByte(v, 0)][p1 := WordByte(v, 1)][p2 := WordByte(v, 2)][p3 := WordByte(v, 3)]
  }

  /** Four bytes from position `k` of a word on: four different addresses that run on within a word. */
  ghost predicate Layout(k: nat, p0: nat, p1: nat, p2: nat, p3: nat) {
    && p0 != p1 && p0 != p2 && p0 != p3 && p1 != p2 && p1 != p3 && p2 != p3
    && (k != 3 ==> p1 == p0 + 1) && (k != 2 ==> p2 == p1 + 1) && (k != 1 ==> p3 == p2 + 1)
  }

  /** How many of the four bytes swl and lwl handle, and which is the first of them. */
  function LeftCount(k: nat): nat {
    if k == 0 then 4 else k
  }

  function LeftStart(k: nat, p0: nat, p1: nat, p2: nat, p3: nat): nat {
    if k == 0 then p0 else if k == 1 then p3 else if k == 2 then p2 else p1
  }

  /** `len` bytes of a number, one after the other. */
  lemma WriteUnrolled(mem: map<nat, nat>, p: nat, d: nat)
    ensures WriteBytes(mem, p, 1, d) == mem[p := d % 256]
    ensures WriteBytes(mem, p, 2, d) == mem[p := d % 256][p + 1 := d / 256 % 256]
    ensures WriteBytes(mem, p, 3, d) == mem[p := d % 256][p + 1 := d / 256 % 256][p + 2 := d / 0x1_0000 % 256]
    ensures WriteBytes(mem, p, 4, d) ==
            mem[p := d % 256][p + 1 := d / 256 % 256][p + 2 := d / 0x1_0000 % 256][p + 3 := d / 0x100_0000 % 256]
  {
    assert d / 256 / 256 == d / 0x1_0000;
    assert d / 256 / 256 / 256 == d / 0x100_0000;
    var m1 := mem[p := d % 256];
    var m2 := m1[p + 1 := d / 256 % 256];
    var m3 := m2[p + 2 := d / 256 / 256 % 256];
    var m4 := m3[p + 3 := d / 256 / 256 / 256 % 256];
    assert WriteBytes(m4, p + 4, 0, d / 256 / 256 / 256 / 256) == m4;
    assert WriteBytes(m3, p + 3, 1, d / 256 / 256 / 256) == m4;
    assert WriteBytes(m2, p + 2, 2, d / 256 / 256) == m4;
    assert WriteBytes(m1, p + 1, 3, d / 256) == m4;
    assert WriteBytes(m1, p + 1, 0, d / 256) == m1;
    assert WriteBytes(m2, p + 2, 0, d / 256 / 256) == m2;
    assert WriteBytes(m1, p + 1, 1, d / 256) == m2;
    assert WriteBytes(m3, p + 3, 0, d / 256 / 256 / 256) == m3;
    assert WriteBytes(m2, p + 2, 1, d / 256 / 256) == m3;
    assert WriteBytes(m1, p + 1, 2, d / 256) == m3;
  }

  lemma ReadUnrolled(mem: map<nat, nat>, p: nat)
    ensures ReadBytes(mem, p, 1) == ByteAt(mem, p)
    ensures ReadBytes(mem, p, 2) == ByteAt(mem, p) + 0x100 * ByteAt(mem, p + 1)
    ensures ReadBytes(mem, p, 3) == ByteAt(mem, p) + 0x100 * ByteAt(mem, p + 1) + 0x1_0000 * ByteAt(mem, p + 2)
    ensures ReadBytes(mem, p, 4) ==
            ByteAt(mem, p) + 0x100 * ByteAt(mem, p + 1) + 0x1_0000 * ByteAt(mem, p + 2) +
              0x100_0000 * ByteAt(mem, p + 3)
  {
    assert ReadBytes(mem, p + 4, 0) == 0;
    assert ReadBytes(mem, p + 3, 1) == ByteAt(mem, p + 3);
    assert ReadBytes(mem, p + 2, 1) == ByteAt(mem, p + 2);
    assert ReadBytes(mem, p + 2, 2) == ByteAt(mem, p + 2) + 256 * ReadBytes(mem, p + 3, 1);
    assert ReadBytes(mem, p + 1, 1) == ByteAt(mem, p + 1);
    assert ReadBytes(mem, p + 1, 2) == ByteAt(mem, p + 1) + 256 * ReadBytes(mem, p + 2, 1);
    assert ReadBytes(mem, p + 1, 3) == ByteAt(mem, p + 1) + 256 * ReadBytes(mem, p + 2, 2);
  }

  // ---------------------------------------------------------------------------------------------------------------
  // Merging

  lemma {:induction false} OrSymmetric(a: nat, b: nat)
    ensures Or(a, b) == Or(b, a)
    decreases a + b
  {
    if a == 0 { OrZero(b); }
    else if b == 0 { OrZero(a); }
    else { OrSymmetric(a / 2, b / 2); }
  }

  lemma BytesPow2(n: nat)
    requires n <= 4
    ensures Bytes(n) == Pow2(8 * n)
  {
    assert Pow2(4) == 16;
    assert Pow2(8) == 256;
    assert Pow2(12) == 4096;
    assert Pow2(16) == 0x1_0000;
    assert Pow2(20) == 0x10_0000;
    assert Pow2(24) == 0x100_0000;
    assert Pow2(28) == 0x1000_0000;
    assert Pow2(32) == WORD32;
  }

  lemma Dropped(v: nat, p: nat, q: nat)
    requires p > 0 && q > 0
    ensures p * q > 0 && v * p % (p * q) / p == v % q
  {
    var k, r := v / q, v % q;
    assert v == k * q + r;
    assert v * p == k * (p * q) + r * p;
    MulBound(r + 1, p, q, p);
    Residue(v * p, k, p * q, r * p);
    Residue(r * p, r, p, 0);
  }

  /** Shifting left drops the high bytes. */
  lemma ShiftedOut(v: nat, n: nat)
    requires 1 <= n <= 3
    ensures v * Bytes(n) % WORD32 / Bytes(n) == v % Bytes(4 - n)
  {
    Dropped(v, Bytes(n), Bytes(4 - n));
  }

  /** A number of `n` bytes fits when shifted to the top. */
  lemma ShiftedIn(data: nat, n: nat)
    requires 1 <= n <= 3 && data < Bytes(n)
    ensures data * Bytes(4 - n) % WORD32 == data * Bytes(4 - n) && data * Bytes(4 - n) % Bytes(4 - n) == 0
  {}

  lemma HighPart(v: nat, n: nat)
    requires v < WORD32 && 1 <= n <= 3
    ensures v / Bytes(n) * Bytes(n) == v - v % Bytes(n) && (v - v % Bytes(n)) % WORD32 == v - v % Bytes(n)
    ensures (v - v % Bytes(n)) % Bytes(n) == 0
  {
    var x := v - v % Bytes(n);
    Residue(x, v / Bytes(n), Bytes(n), 0);
    Residue(x, 0, WORD32, x);
  }

  lemma OrParts(v: nat, data: nat, n: nat)
    requires v < WORD32 && 1 <= n <= 3 && data < Bytes(n)
    ensures Or(data, v / Bytes(n) * Bytes(n) % WORD32) == v - v % Bytes(n) + data
  {
    BytesPow2(n);
    HighPart(v, n);
    var high := v - v % Bytes(n);
    OrSymmetric(data, high);
    OrDisjoint(high, data, 8 * n);
  }

  /** lwl replaces the `len` high bytes of the register. */
  lemma MergeLeftValue(v: nat, data: nat, len: nat)
    requires v < WORD32 && 1 <= len <= 4 && data < Bytes(len)
    ensures MergeLeft(v, data, len) == data * Bytes(4 - len) + v % Bytes(4 - len)
  {
    if len < 4 {
      BytesPow2(4 - len);
      ShiftedIn(data, len);
      ShiftedOut(v, len);
      OrDisjoint(data * Bytes(4 - len), v % Bytes(4 - len), 8 * (4 - len));
    }
  }

  /** lwr replaces the bytes below. */
  lemma MergeRightValue(v: nat, data: nat, idx: nat)
    requires v < WORD32 && idx <= 3 && data < Bytes(4 - idx)
    ensures MergeRight(v, data, idx) == (if idx == 0 then 0 else v - v % Bytes(4 - idx)) + data
  {
    if idx > 0 {
      ShiftedOut(data, idx);
      Residue(data, 0, Bytes(4 - idx), data);
      OrParts(v, data, 4 - idx);
    }
  }

  /** Loading the high bytes and then the low ones leaves nothing of what the register held. */
  lemma MergeBoth(v: nat, hi: nat, lo: nat, k: nat)
    requires v < WORD32 && 1 <= k <= 3 && hi < Bytes(k) && lo < Bytes(4 - k)
    ensures MergeLeft(v, hi, k) < WORD32
    ensures MergeRight(MergeLeft(v, hi, k), lo, k) == hi * Bytes(4 - k) + lo
  {
    MergeLeftValue(v, hi, k);
    var x := MergeLeft(v, hi, k);
    assert hi * Bytes(4 - k) + Bytes(4 - k) <= WORD32 by {
      MulBound(hi + 1, Bytes(4 - k), Bytes(k), Bytes(4 - k));
    }
    Residue(x, hi, Bytes(4 - k), v % Bytes(4 - k));
    MergeRightValue(x, lo, k);
  }

  // ---------------------------------------------------------------------------------------------------------------
  // The pairs of instructions

  /** swl at the last of four bytes, then swr at the first. */
  function StorePair(w: World, s: State, a: nat, v: nat): Option<State> {
    var r := Swl(w, s, (a + 3) % WORD32, v);
    if r.None? then None else Swr(w, r.value, a, v)
  }

  /** lwl at the last of four bytes, then lwr at the first. */
  function LoadPair(w: World, s: State, a: nat, v: nat): Option<(nat, State)> {
    var r := Lwl(w, s, (a + 3) % WORD32, v);
    if r.None? then None else Lwr(w, r.value.1, a, r.value.0)
  }

  /** Both words that the four bytes from `a` on lie in are mapped to memory, for stores or for loads at least. */
  ghost predicate Reachable(w: World, s: State, store: bool, a: nat) {
    a < WORD32 && Mapped(w, s, store, a) && Mapped(w, s, store, (a + 3) % WORD32) && !s.exception
  }

  lemma Offset(w: World, s: State, store: bool, a: nat)
    requires Mapped(w, s, store, a)
    ensures Phys(s, a) % PAGE == a % PAGE
  {
    LoadWhereStored(s, a / PAGE);
  }

  /** Two bytes of four that lie in one word. */
  lemma Neighbours(w: World, s: State, store: bool, a: nat, i: nat)
    requires i < 3 && a % 4 + i != 3
    ensures Mapped(w, s, store, a + i) <==> Mapped(w, s, store, a + i + 1)
    ensures Mapped(w, s, store, a + i) ==> Phys(s, a + i + 1) == Phys(s, a + i) + 1
  {
    assert (a + i) % 4 != 3;
    SameWord(w, s, store, a + i);
  }

  lemma AllMapped(w: World, s: State, store: bool, a: nat)
    requires Mapped(w, s, store, a) && Mapped(w, s, store, a + 3)
    ensures Mapped(w, s, store, a + 1) && Mapped(w, s, store, a + 2)
  {
    if a % 4 != 3 { Neighbours(w, s, store, a, 0); }
    if a % 4 != 2 { Neighbours(w, s, store, a, 1); }
    if a % 4 != 1 { Neighbours(w, s, store, a, 2); }
  }

  lemma Different(w: World, s: State, store: bool, a: nat, b: nat)
    requires Mapped(w, s, store, a) && Mapped(w, s, store, b) && a < b <= a + 3
    ensures Phys(s, a) != Phys(s, b)
  {
    Offset(w, s, store, a);
    Offset(w, s, store, b);
    assert a % PAGE != b % PAGE;
  }

  lemma AllDifferent(w: World, s: State, store: bool, a: nat)
    requires Mapped(w, s, store, a) && Mapped(w, s, store, a + 1) && Mapped(w, s, store, a + 2) &&
      Mapped(w, s, store, a + 3)
    ensures Phys(s, a) != Phys(s, a + 1) && Phys(s, a) != Phys(s, a + 2) && Phys(s, a) != Phys(s, a + 3)
    ensures Phys(s, a + 1) != Phys(s, a + 2) && Phys(s, a + 1) != Phys(s, a + 3) && Phys(s, a + 2) != Phys(s, a + 3)
  {
    Different(w, s, store, a, a + 1);
    Different(w, s, store, a, a + 2);
    Different(w, s, store, a, a + 3);
    Different(w, s, store, a + 1, a + 2);
    Different(w, s, store, a + 1, a + 3);
    Different(w, s, store, a + 2, a + 3);
  }

  lemma Adjacent(w: World, s: State, store: bool, a: nat)
    requires Mapped(w, s, store, a) && Mapped(w, s, store, a + 1) && Mapped(w, s, store, a + 2)
    ensures a % 4 != 3 ==> Phys(s, a + 1) == Phys(s, a) + 1
    ensures a % 4 != 2 ==> Phys(s, a + 2) == Phys(s, a + 1) + 1
    ensures a % 4 != 1 ==> Phys(s, a + 3) == Phys(s, a + 2) + 1
  {
    AdjacentAt(w, s, store, a, 0, a, a + 1);
    AdjacentAt(w, s, store, a, 1, a + 1, a + 2);
    AdjacentAt(w, s, store, a, 2, a + 2, a + 3);
  }

  lemma AdjacentAt(w: World, s: State, store: bool, a: nat, i: nat, x: nat, y: nat)
    requires i < 3 && x == a + i && y == a + i + 1 && Mapped(w, s, store, x)
    ensures a % 4 + i != 3 ==> Phys(s, y) == Phys(s, x) + 1
  {
    if a % 4 + i != 3 { Neighbours(w, s, store, a, i); }
  }

  lemma PhysLayout(w: World, s: State, store: bool, a: nat)
    requires Mapped(w, s, store, a) && Mapped(w, s, store, a + 3)
    ensures Layout(a % 4, Phys(s, a), Phys(s, a + 1), Phys(s, a + 2), Phys(s, a + 3))
  {
    AllMapped(w, s, store, a);
    AllDifferent(w, s, store, a);
    Adjacent(w, s, store, a);
  }

  lemma LeftBase(a: nat)
    ensures (a + 3) % 4 + 1 == LeftCount(a % 4) && (a + 3) - (a + 3) % 4 == a + 4 - LeftCount(a % 4)
  {}

  /** The word that holds the last byte: where the left instructions start. */
  lemma LeftWord(w: World, s: State, store: bool, a: nat)
    requires Mapped(w, s, store, a) && Mapped(w, s, store, a + 3)
    ensures Mapped(w, s, store, a + 4 - LeftCount(a % 4))
    ensures Phys(s, a + 4 - LeftCount(a % 4)) ==
      LeftStart(a % 4, Phys(s, a), Phys(s, a + 1), Phys(s, a + 2), Phys(s, a + 3))
  {
    AllMapped(w, s, store, a);
    var k := a % 4;
    if k == 0 { assert a + 4 - LeftCount(k) == a; }
    if k == 1 { assert a + 4 - LeftCount(k) == a + 3; }
    if k == 2 { assert a + 4 - LeftCount(k) == a + 2; }
    if k == 3 { assert a + 4 - LeftCount(k) == a + 1; }
  }

  /** Updates at different addresses in another order. */
  lemma Reordered(mem: map<nat, nat>, p0: nat, p1: nat, p2: nat, p3: nat, b0: nat, b1: nat, b2: nat, b3: nat)
    requires p0 != p1 && p0 != p2 && p0 != p3 && p1 != p2 && p1 != p3 && p2 != p3
    ensures var all := mem[p0 := b0][p1 := b1][p2 := b2][p3 := b3];
            && all[p0 := b0][p1 := b1][p2 := b2][p3 := b3] == all
            && mem[p3 := b3][p0 := b0][p1 := b1][p2 := b2] == all
            && mem[p2 := b2][p3 := b3][p0 := b0][p1 := b1] == all
            && mem[p1 := b1][p2 := b2][p3 := b3][p0 := b0] == all
  {}

  lemma Quotients(v: nat)
    ensures v / 0x100 / 0x100 == v / 0x1_0000
    ensures v / 0x100 / 0x1_0000 == v / 0x100_0000 && v / 0x1_0000 / 0x100 == v / 0x100_0000
    ensures WordByte(v, 0) == v % 256 && WordByte(v, 1) == v / 0x100 % 256
    ensures WordByte(v, 2) == v / 0x1_0000 % 256 && WordByte(v, 3) == v / 0x100_0000 % 256
  {}

  /** The memory after the two stores. */
  lemma StoredBytes(mem: map<nat, nat>, k: nat, p0: nat, p1: nat, p2: nat, p3: nat, v: nat)
    requires k < 4 && Layout(k, p0, p1, p2, p3)
    ensures var n := LeftCount(k);
            WriteBytes(WriteBytes(mem, LeftStart(k, p0, p1, p2, p3), n, v / Bytes(4 - n)), p0, 4 - k, v) ==
            FourBytes(mem, p0, p1, p2, p3, v)
  {
    var n, start := LeftCount(k), LeftStart(k, p0, p1, p2, p3);
    var d := v / Bytes(4 - n);
    WriteUnrolled(mem, start, d);
    WriteUnrolled(WriteBytes(mem, start, n, d), p0, v);
    Quotients(v);
    Reordered(mem, p0, p1, p2, p3, WordByte(v, 0), WordByte(v, 1), WordByte(v, 2), WordByte(v, 3));
  }

  lemma SwlMapped(w: World, s: State, a: nat, base: nat, n: nat, v: nat)
    requires !s.exception && Mapped(w, s, true, base) && base == a - a % 4 && n == a % 4 + 1
    ensures Swl(w, s, a, v) == Some(s.(mem := WriteBytes(s.mem, Phys(s, base), n, v / Bytes(4 - n))))
  {
    StoreMapped(w, s, base, n, v / Bytes(4 - n));
  }

  lemma MappedAfter(w: World, s: State, store: bool, mem: map<nat, nat>, a: nat)
    ensures Mapped(w, s.(mem := mem), store, a) <==> Mapped(w, s, store, a)
    ensures Phys(s.(mem := mem), a) == Phys(s, a)
  {}

  lemma SwrMapped(w: World, s: State, a: nat, v: nat)
    requires Mapped(w, s, true, a)
    ensures Swr(w, s, a, v) == Some(s.(mem := WriteBytes(s.mem, Phys(s, a), 4 - a % 4, v)))
  {
    StoreMapped(w, s, a, 4 - a % 4, v);
  }

  lemma StorePairValue(w: World, s: State, a: nat, v: nat)
    requires Reachable(w, s, true, a)
    ensures var k := a % 4;
            var n, start := LeftCount(k), LeftStart(k, Phys(s, a), Phys(s, a + 1), Phys(s, a + 2), Phys(s, a + 3));
            var mem := WriteBytes(s.mem, start, n, v / Bytes(4 - n));
            StorePair(w, s, a, v) == Some(s.(mem := WriteBytes(mem, Phys(s, a), 4 - a % 4, v)))
  {
    NoWrap(w, s, true, a);
    LeftWord(w, s, true, a);
    LeftBase(a);
    var n := LeftCount(a % 4);
    SwlMapped(w, s, a + 3, a + 4 - n, n, v);
    var t := Swl(w, s, a + 3, v).value;
    MappedAfter(w, s, true, t.mem, a);
    SwrMapped(w, t, a, v);
  }

  /** swl at the last byte and swr at the first write exactly the four little-endian bytes of the register. */
  lemma StoreUnaligned(w: World, s: State, a: nat, v: nat)
    requires Reachable(w, s, true, a)
    ensures StorePair(w, s, a, v) ==
            Some(s.(mem := FourBytes(s.mem, Phys(s, a), Phys(s, a + 1), Phys(s, a + 2), Phys(s, a + 3), v)))
  {
    NoWrap(w, s, true, a);
    StorePairValue(w, s, a, v);
    PhysLayout(w, s, true, a);
    StoredBytes(s.mem, a % 4, Phys(s, a), Phys(s, a + 1), Phys(s, a + 2), Phys(s, a + 3), v);
  }

  /** The word in four bytes. */
  function WordAt(mem: map<nat, nat>, p0: nat, p1: nat, p2: nat, p3: nat): nat {
    ByteAt(mem, p0) + 0x100 * ByteAt(mem, p1) + 0x1_0000 * ByteAt(mem, p2) + 0x100_0000 * ByteAt(mem, p3)
  }

  ghost predicate AreBytes(mem: map<nat, nat>, p0: nat, p1: nat, p2: nat, p3: nat) {
    ByteAt(mem, p0) < 256 && ByteAt(mem, p1) < 256 && ByteAt(mem, p2) < 256 && ByteAt(mem, p3) < 256
  }

  lemma LoadedParts(mem: map<nat, nat>, k: nat, p0: nat, p1: nat, p2: nat, p3: nat, hi: nat, lo: nat)
    requires 1 <= k < 4 && AreBytes(mem, p0, p1, p2, p3) && Layout(k, p0, p1, p2, p3)
    requires hi == ReadBytes(mem, LeftStart(k, p0, p1, p2, p3), k) && lo == ReadBytes(mem, p0, 4 - k)
    ensures hi < Bytes(k) && lo < Bytes(4 - k) && hi * Bytes(4 - k) + lo == WordAt(mem, p0, p1, p2, p3)
  {
    ReadUnrolled(mem, LeftStart(k, p0, p1, p2, p3));
    ReadUnrolled(mem, p0);
  }

  lemma LoadedWord(mem: map<nat, nat>, k: nat, p0: nat, p1: nat, p2: nat, p3: nat, v: nat)
    requires k < 4 && v < WORD32 && AreBytes(mem, p0, p1, p2, p3) && Layout(k, p0, p1, p2, p3)
    ensures var n := LeftCount(k);
            var hi, lo := ReadBytes(mem, LeftStart(k, p0, p1, p2, p3), n), ReadBytes(mem, p0, 4 - k);
            MergeRight(MergeLeft(v, hi, n), lo, k) ==
            WordAt(mem, p0, p1, p2, p3)
  {
    if k == 0 {
      ReadUnrolled(mem, p0);
      var x := WordAt(mem, p0, p1, p2, p3);
      MergeRightValue(x, x, 0);
    } else {
      var hi, lo := ReadBytes(mem, LeftStart(k, p0, p1, p2, p3), k), ReadBytes(mem, p0, 4 - k);
      LoadedParts(mem, k, p0, p1, p2, p3, hi, lo);
      MergeBoth(v, hi, lo, k);
    }
  }

  lemma LwlMapped(w: World, s: State, a: nat, base: nat, n: nat, v: nat)
    requires !s.exception && Mapped(w, s, false, base) && base == a - a % 4 && n == a % 4 + 1
    ensures Lwl(w, s, a, v) == Some((MergeLeft(v, ReadBytes(s.mem, Phys(s, base), n), n), s))
  {
    LoadMapped(w, s, base, n);
  }

  lemma LwrMapped(w: World, s: State, a: nat, v: nat)
    requires !s.exception && Mapped(w, s, false, a)
    ensures Lwr(w, s, a, v) == Some((MergeRight(v, ReadBytes(s.mem, Phys(s, a), 4 - a % 4), a % 4), s))
  {
    LoadMapped(w, s, a, 4 - a % 4);
  }

  lemma LoadPairValue(w: World, s: State, a: nat, v: nat)
    requires Reachable(w, s, false, a)
    ensures var k := a % 4;
            var n, start := LeftCount(k), LeftStart(k, Phys(s, a), Phys(s, a + 1), Phys(s, a + 2), Phys(s, a + 3));
            LoadPair(w, s, a, v) ==
            Some((MergeRight(MergeLeft(v, ReadBytes(s.mem, start, n), n), ReadBytes(s.mem, Phys(s, a), 4 - k), k), s))
  {
    NoWrap(w, s, false, a);
    LeftWord(w, s, false, a);
    LeftBase(a);
    var n := LeftCount(a % 4);
    LwlMapped(w, s, a + 3, a + 4 - n, n, v);
    LwrMapped(w, s, a, Lwl(w, s, a + 3, v).value.0);
  }

  /** lwl at the last byte and lwr at the first load the word in the four bytes, whatever the register held. */
  lemma LoadUnaligned(w: World, s: State, a: nat, v: nat)
    requires Reachable(w, s, false, a) && v < WORD32
    requires AreBytes(s.mem, Phys(s, a), Phys(s, a + 1), Phys(s, a + 2), Phys(s, a + 3))
    ensures LoadPair(w, s, a, v) == Some((WordAt(s.mem, Phys(s, a), Phys(s, a + 1), Phys(s, a + 2), Phys(s, a + 3)), s))
  {
    NoWrap(w, s, false, a);
    LoadPairValue(w, s, a, v);
    PhysLayout(w, s, false, a);
    LoadedWord(s.mem, a % 4, Phys(s, a), Phys(s, a + 1), Phys(s, a + 2), Phys(s, a + 3), v);
  }

  /** A register stored with swl and swr is restored by lwl and lwr, into a register that held anything. */
  lemma StoreThenLoad(w: World, s: State, a: nat, v: nat, other: nat)
    requires Reachable(w, s, true, a) && v < WORD32 && other < WORD32
    ensures var t := StorePair(w, s, a, v);
            t.Some? && LoadPair(w, t.value, a, other) == Some((v, t.value))
  {
    NoWrap(w, s, true, a);
    PhysLayout(w, s, true, a);
    StoreUnaligned(w, s, a, v);
    var p0, p1, p2, p3 := Phys(s, a), Phys(s, a + 1), Phys(s, a + 2), Phys(s, a + 3);
    var mem := FourBytes(s.mem, p0, p1, p2, p3, v);
    ReadBackWord(s.mem, a % 4, p0, p1, p2, p3, v);
    LoadWhereStored(s, a / PAGE);
    LoadWhereStored(s, (a + 3) / PAGE);
    LoadAfter(w, s, mem, a, other);
  }

  lemma LoadAfter(w: World, s: State, mem: map<nat, nat>, a: nat, other: nat)
    requires Reachable(w, s, false, a) && other < WORD32
    requires AreBytes(mem, Phys(s, a), Phys(s, a + 1), Phys(s, a + 2), Phys(s, a + 3))
    ensures var t := s.(mem := mem);
            LoadPair(w, t, a, other) ==
            Some((WordAt(mem, Phys(s, a), Phys(s, a + 1), Phys(s, a + 2), Phys(s, a + 3)), t))
  {
    MappedAfter(w, s, false, mem, a);
    MappedAfter(w, s, false, mem, a + 1);
    MappedAfter(w, s, false, mem, a + 2);
    MappedAfter(w, s, false, mem, a + 3);
    NoWrap(w, s, false, a);
    LoadUnaligned(w, s.(mem := mem), a, other);
  }

  lemma ReadBackWord(mem: map<nat, nat>, k: nat, p0: nat, p1: nat, p2: nat, p3: nat, v: nat)
    requires Layout(k, p0, p1, p2, p3) && v < WORD32
    ensures var m := FourBytes(mem, p0, p1, p2, p3, v);
            AreBytes(m, p0, p1, p2, p3) && WordAt(m, p0, p1, p2, p3) == v
  {
    WordOfBytes(v);
  }

  // ---------------------------------------------------------------------------------------------------------------
  // The instruction handlers

  lemma WordPage(a: nat)
    ensures (a - a % 4) / PAGE == a / PAGE
  {}

  /** The registers in front of the machine with its translation cache. */
  class Core {
    const machine: Machine
    var gpr: seq<nat>

    constructor (machine: Machine)
      ensures this.machine == machine && gpr == seq(32, _ => 0)
    {
      this.machine := machine;
      gpr := seq(32, _ => 0);
    }

    ghost predicate Ok()
      reads this, machine, machine.cache
    {
      machine.Valid() && |gpr| == 32
    }

    /** swl of register `rt`; `ok` is false when the simulator stops. */
    method ExecSwl(a: nat, rt: nat) returns (ok: bool)
      requires Ok() && a < WORD32 && rt < 32 && machine.Usable(a / PAGE)
      modifies machine, machine.cache
      ensures var r := Swl(machine.world, old(machine.View()), a, gpr[rt]);
              ok == r.Some? && (ok ==> Ok() && machine.View() == r.value && (machine.stale ==> old(machine.stale)))
    {
      var idx := a % 4;
      var base := a - idx;
      WordPage(a);
      var r := machine.VaddrWrite(base / PAGE, base % PAGE, idx + 1, gpr[rt] / Bytes(3 - idx));
      ok := r.Some?;
      if ok && machine.exception {
        machine.SetBadVaddr(a);
      }
    }

    method ExecSwr(a: nat, rt: nat) returns (ok: bool)
      requires Ok() && a < WORD32 && rt < 32 && machine.Usable(a / PAGE)
      modifies machine, machine.cache
      ensures var r := Swr(machine.world, old(machine.View()), a, gpr[rt]);
              ok == r.Some? && (ok ==> Ok() && machine.View() == r.value && (machine.stale ==> old(machine.stale)))
    {
      var r := machine.VaddrWrite(a / PAGE, a % PAGE, 4 - a % 4, gpr[rt]);
      ok := r.Some?;
    }

    method ExecLwl(a: nat, rt: nat) returns (ok: bool)
      requires Ok() && a < WORD32 && rt < 32 && machine.Usable(a / PAGE)
      modifies `gpr, machine, machine.cache
      ensures var r := Lwl(machine.world, old(machine.View()), a, old(gpr[rt]));
              && ok == r.Some? && (ok && machine.stale ==> old(machine.stale))
              && (ok ==> Ok() && machine.View() == r.value.1 && gpr == old(gpr)[rt := r.value.0])
    {
      var idx := a % 4;
      var base := a - idx;
      WordPage(a);
      var r := machine.VaddrRead(base / PAGE, base % PAGE, idx + 1);
      ok := r.Some?;
      if ok {
        if machine.exception {
          machine.SetBadVaddr(a);
        } else {
          gpr := gpr[rt := MergeLeft(gpr[rt], r.value, idx + 1)];
        }
      }
    }

    method ExecLwr(a: nat, rt: nat) returns (ok: bool)
      requires Ok() && a < WORD32 && rt < 32 && machine.Usable(a / PAGE)
      modifies `gpr, machine, machine.cache
      ensures var r := Lwr(machine.world, old(machine.View()), a, old(gpr[rt]));
              && ok == r.Some? && (ok && machine.stale ==> old(machine.stale))
              && (ok ==> Ok() && machine.View() == r.value.1 && gpr == old(gpr)[rt := r.value.0])
    {
      var r := machine.VaddrRead(a / PAGE, a % PAGE, 4 - a % 4);
      ok := r.Some?;
      if ok && !machine.exception {
        gpr := gpr[rt := MergeRight(gpr[rt], r.value, a % 4)];
      }
    }
  }
}
