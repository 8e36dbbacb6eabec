/** What software sees of address translation: the segments, an entry written to the TLB in use, and the refill of a
    missing one (src/cpu/mmu.c, src/cpu/exec/system.h, include/cpu/memory.h). */
module TlbUse {
  import opened Basics
  import opened Bitwise
  import opened Translation
  import opened MmuCache

  // ---------------------------------------------------------------------------------------------------------------
  // Segments, by virtual address

  lemma SegmentOf(a: nat)
    requires a < 0x1_0000_0000
    ensures a / PAGE / SEGMENT % 8 == a / 0x2000_0000
    ensures a / PAGE % SEGMENT * PAGE + a % PAGE == a % 0x2000_0000
  {}

  /** A load from memory at a virtual address: the two direct segments reach the physical address in the low 29 bits,
      the top segment stops the simulator, and with ERL set the user segment is direct too. */
  lemma DirectSegments(w: World, s: State, a: nat, len: nat)
    requires a < 0x1_0000_0000 && w.region(a % 0x2000_0000 / PAGE) == Ram
    ensures var r := Step(w, s, Load(a / PAGE, a % PAGE, len));
            && (0x8000_0000 <= a < 0xC000_0000 ==> r == Some((ReadBytes(s.mem, a % 0x2000_0000, len), s)))
            && (0xE000_0000 <= a ==> r == None)
            && (a < 0x2000_0000 && s.cp0.erl ==> r == Some((ReadBytes(s.mem, a, len), s)))
  {
    SegmentOf(a);
    assert a % 0x2000_0000 / PAGE == a / PAGE % SEGMENT;
    assert a < 0x2000_0000 ==> a / PAGE % SEGMENT == a / PAGE;
  }

  /** The pages that go through the TLB: the user segment unless ERL is set, and the supervisor segment. */
  predicate MappedPage(page: nat, erl: bool) {
    (page < 0x8_0000 && !erl) || 0xC_0000 <= page < 0xE_0000
  }

  lemma MappedPageUses(s: State, page: nat)
    requires MappedPage(page, s.cp0.erl)
    ensures UsesTlb(s, page)
  {}

  // ---------------------------------------------------------------------------------------------------------------
  // An entry written is used

  lemma {:induction false} ClearNothing(a: nat)
    ensures ClearBits(a, 0) == a
  {
    if a > 0 { ClearNothing(a / 2); }
  }

  /** ClearBits clears the bits of the mask and no others. */
  lemma {:induction false} ClearedBits(a: nat, m: nat, i: nat)
    ensures HasBit(ClearBits(a, m), i) <==> HasBit(a, i) && !HasBit(m, i)
    decreases i
  {
    if a == 0 {
      NoBits(i);
    } else if i > 0 {
      assert ClearBits(a, m) / 2 == ClearBits(a / 2, m / 2);
      ClearedBits(a / 2, m / 2, i - 1);
    }
  }

  /** No entry before `i` matches the pair of pages `vpn` under the ASID, and none has a page mask. */
  predicate NoneBefore(tlb: seq<Entry>, i: nat, vpn: nat, asid: nat) {
    forall j :: 0 <= j < i && j < |tlb| ==>
      tlb[j].pagemask == 0 && !(tlb[j].vpn == vpn && (tlb[j].global || tlb[j].asid == asid))
  }

  /** The state after a TLB fault at an address: an exception with the page in BadVAddr and EntryHi. */
  function Faulted(s: State, page: nat, offset: nat): State {
    s.(exception := true, cp0 := s.cp0.(exl := true, badvaddr := page * PAGE + offset, vpn := page / 2))
  }

  /** How accesses to a page go that EntryLo `lo` describes. */
  ghost predicate Reached(w: World, s: State, page: nat, lo: EntryLo) {
    forall offset: nat, len: nat, data: nat ::
      var frame := lo.pfn % SEGMENT;
      var load, store := Step(w, s, Load(page, offset, len)), Step(w, s, Store(page, offset, len, data));
      && (!lo.valid ==> load == store == Some((0, Faulted(s, page, offset))))
      && (lo.valid && !lo.dirty ==> store == Some((0, Faulted(s, page, offset))))
      && (lo.valid && w.region(frame) == Ram ==> load == Some((ReadBytes(s.mem, frame * PAGE + offset, len), s)))
      && (lo.valid && lo.dirty && w.region(frame) == Ram ==>
            store == Some((0, s.(mem := WriteBytes(s.mem, frame * PAGE + offset, len, data)))))
  }

  lemma ReachedThrough(w: World, s: State, page: nat, k: nat, lo: EntryLo)
    requires UsesTlb(s, page) && FirstMatch(s.tlb, s.cp0.asid, page, 0, k) && s.tlb[k].asid == s.cp0.asid
    requires Half(s.tlb[k], page) == Phys(lo.pfn, lo.c, lo.dirty, lo.valid)
    ensures Reached(w, s, page, lo)
  {
    SearchAt(s.tlb, s.cp0.asid, page, 0, k);
  }

  /** The state after writing the CP0 fields to entry `k`. */
  lemma EntryWritten(w: World, s: State, t: State, k: nat)
    requires k < |s.tlb| && s.cp0.pagemask == 0 && NoneBefore(s.tlb, k, s.cp0.vpn, s.cp0.asid)
    requires t.tlb == s.tlb[k := NewEntry(s.cp0)] && t.cp0.asid == s.cp0.asid
    ensures var v := s.cp0.vpn;
            && (UsesTlb(t, 2 * v) ==> Reached(w, t, 2 * v, s.cp0.lo0))
            && (UsesTlb(t, 2 * v + 1) ==> Reached(w, t, 2 * v + 1, s.cp0.lo1))
  {
    var c := s.cp0;
    ClearNothing(c.vpn);
    ClearNothing(c.lo0.pfn);
    ClearNothing(c.lo1.pfn);
    assert FirstMatch(t.tlb, c.asid, 2 * c.vpn, 0, k) && FirstMatch(t.tlb, c.asid, 2 * c.vpn + 1, 0, k);
    if UsesTlb(t, 2 * c.vpn) { ReachedThrough(w, t, 2 * c.vpn, k, c.lo0); }
    if UsesTlb(t, 2 * c.vpn + 1) { ReachedThrough(w, t, 2 * c.vpn + 1, k, c.lo1); }
  }

  /** tlbwi with 4 KB pages: from then on the even page of EntryHi is reached as EntryLo0 says and the odd one as
      EntryLo1 says, for loads and stores, faults included, if no entry before it matches. */
  lemma TlbwiTakesEffect(w: World, s: State)
    requires s.cp0.index < |s.tlb| && s.cp0.pagemask == 0 && NoneBefore(s.tlb, s.cp0.index, s.cp0.vpn, s.cp0.asid)
    ensures Step(w, s, Tlbwi).Some?
    ensures var t, v := Step(w, s, Tlbwi).value.1, s.cp0.vpn;
            && t == s.(tlb := t.tlb)
            && (MappedPage(2 * v, s.cp0.erl) ==> Reached(w, t, 2 * v, s.cp0.lo0))
            && (MappedPage(2 * v + 1, s.cp0.erl) ==> Reached(w, t, 2 * v + 1, s.cp0.lo1))
  {
    EntryWritten(w, s, Step(w, s, Tlbwi).value.1, s.cp0.index);
  }

  /** tlbwi and then tlbr give the CP0 fields back, but for the bits under the page mask and the global bit, which an
      entry has only one of. */
  lemma TlbwiThenTlbr(w: World, s: State)
    requires s.cp0.index < |s.tlb|
    ensures Step(w, s, Tlbwi).Some? && Step(w, Step(w, s, Tlbwi).value.1, Tlbr).Some?
    ensures var c, u := s.cp0, Step(w, Step(w, s, Tlbwi).value.1, Tlbr).value.1;
            && (u.cp0.asid, u.cp0.pagemask) == (c.asid, c.pagemask)
            && u.cp0.lo0 == c.lo0.(pfn := u.cp0.lo0.pfn, global := c.lo0.global && c.lo1.global)
            && u.cp0.lo1 == c.lo1.(pfn := u.cp0.lo1.pfn, global := c.lo0.global && c.lo1.global)
            && forall i: nat ::
                 && (HasBit(u.cp0.vpn, i) <==> HasBit(c.vpn, i) && !HasBit(c.pagemask, i))
                 && (HasBit(u.cp0.lo0.pfn, i) <==> HasBit(c.lo0.pfn, i) && !HasBit(c.pagemask, i))
                 && (HasBit(u.cp0.lo1.pfn, i) <==> HasBit(c.lo1.pfn, i) && !HasBit(c.pagemask, i))
  {
    var c, m := s.cp0, s.cp0.pagemask;
    var u := Step(w, Step(w, s, Tlbwi).value.1, Tlbr).value.1;
    forall i: nat ensures
      && (HasBit(u.cp0.vpn, i) <==> HasBit(c.vpn, i) && !HasBit(m, i))
      && (HasBit(u.cp0.lo0.pfn, i) <==> HasBit(c.lo0.pfn, i) && !HasBit(m, i))
      && (HasBit(u.cp0.lo1.pfn, i) <==> HasBit(c.lo1.pfn, i) && !HasBit(m, i))
    {
      ClearedTwice(c.vpn, m, i);
      ClearedTwice(c.lo0.pfn, m, i);
      ClearedTwice(c.lo1.pfn, m, i);
    }
  }

  lemma ClearedTwice(a: nat, m: nat, i: nat)
    ensures HasBit(ClearBits(ClearBits(a, m), m), i) <==> HasBit(a, i) && !HasBit(m, i)
  {
    ClearedBits(a, m, i);
    ClearedBits(ClearBits(a, m), m, i);
  }

  // ---------------------------------------------------------------------------------------------------------------
  // Probing

  predicate Found(tlb: seq<Entry>, i: nat, vpn: nat, asid: nat) {
    i < |tlb| && tlb[i].pagemask == 0 && tlb[i].vpn == vpn && (tlb[i].global || tlb[i].asid == asid)
  }

  /** tlbp gives the least index of a matching entry, or reports a miss when there is none. */
  lemma TlbpFinds(w: World, s: State, k: nat)
    requires NoneBefore(s.tlb, k, s.cp0.vpn, s.cp0.asid)
    ensures Found(s.tlb, k, s.cp0.vpn, s.cp0.asid) ==>
      Step(w, s, Tlbp) == Some((0, s.(cp0 := s.cp0.(miss := false, index := k))))
    ensures k >= |s.tlb| ==> Step(w, s, Tlbp) == Some((0, s.(cp0 := s.cp0.(miss := true))))
  {
    ProbeFrom(s.tlb, s.cp0, 0, k);
  }

  lemma {:induction false} ProbeFrom(tlb: seq<Entry>, c: Cp0, i: nat, k: nat)
    requires i <= k && NoneBefore(tlb, k, c.vpn, c.asid)
    ensures Found(tlb, k, c.vpn, c.asid) ==> Probe(tlb, c, i) == Some(c.(miss := false, index := k))
    ensures k >= |tlb| ==> Probe(tlb, c, i) == Some(c.(miss := true))
    decreases |tlb| - i
  {
    if i < |tlb| && i < k { ProbeFrom(tlb, c, i + 1, k); }
  }

  // ---------------------------------------------------------------------------------------------------------------
  // Refill

  lemma {:induction false} Misses(tlb: seq<Entry>, asid: nat, page: nat, i: nat)
    requires NoneBefore(tlb, |tlb|, page / 2, asid)
    ensures Search(tlb, asid, page, i) == Missed
    decreases |tlb| - i
  {
    if i < |tlb| { Misses(tlb, asid, page, i + 1); }
  }

  /** A load of a page that no entry matches faults with the page in EntryHi and the ASID kept. So a handler has only to
      set EntryLo, write a random entry and return: then the load finds the page as EntryLo says. */
  lemma RefillAndRetry(w: World, s: State, page: nat, offset: nat, len: nat, lo0: EntryLo, lo1: EntryLo, random: nat)
    requires |s.tlb| > 0 && s.cp0.pagemask == 0 && !s.cp0.erl && MappedPage(page, false)
    requires NoneBefore(s.tlb, |s.tlb|, page / 2, s.cp0.asid)
    ensures Step(w, s, Load(page, offset, len)) == Some((0, Faulted(s, page, offset)))
    ensures var load := Load(page, offset, len);
            var end := RunEnd(w, s, [load, Mtc0EntryLo(lo0, lo1), Tlbwr(random), Eret, NextInstruction]);
            && end.Some? && !end.value.exception && !end.value.cp0.exl && end.value.mem == s.mem
            && Reached(w, end.value, page, if page % 2 == 0 then lo0 else lo1)
  {
    Misses(s.tlb, s.cp0.asid, page, 0);
    MappedPageUses(s, page);
    var a := Faulted(s, page, offset);
    var b := a.(cp0 := a.cp0.(lo0 := lo0, lo1 := lo1));
    var k := random % |s.tlb|;
    var c := b.(cp0 := b.cp0.(random := k), tlb := b.tlb[k := NewEntry(b.cp0)]);
    var d := c.(cp0 := c.cp0.(exl := false));
    var e := d.(exception := false);
    EntryWritten(w, b, e, k);
    var load := Load(page, offset, len);
    HandlerRun(w, s, a, b, c, d, e, load, Mtc0EntryLo(lo0, lo1), Tlbwr(random), Eret, NextInstruction);
  }

  lemma HandlerRun(
    w: World, s: State, a: State, b: State, c: State, d: State, e: State, op1: Op, op2: Op, op3: Op, op4: Op, op5: Op)
    requires Step(w, s, op1) == Some((0, a)) && Step(w, a, op2) == Some((0, b)) && Step(w, b, op3) == Some((0, c))
    requires Step(w, c, op4) == Some((0, d)) && Step(w, d, op5) == Some((0, e))
    ensures RunEnd(w, s, [op1, op2, op3, op4, op5]) == Some(e)
  {
    RunEndStep(w, d, op5, [], 0, e);
    RunEndStep(w, c, op4, [op5], 0, d);
    RunEndStep(w, b, op3, [op4, op5], 0, c);
    RunEndStep(w, a, op2, [op3, op4, op5], 0, b);
    RunEndStep(w, s, op1, [op2, op3, op4, op5], 0, a);
  }

  lemma RunEndStep(w: World, s: State, op: Op, rest: seq<Op>, data: nat, t: State)
    requires Step(w, s, op) == Some((data, t))
    ensures RunEnd(w, s, [op] + rest) == RunEnd(w, t, rest)
  {
    assert ([op] + rest)[1..] == rest;
  }
}
