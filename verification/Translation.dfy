/** Address translation of the simulated MIPS32 machine and what every step does to it, without any caching
    (src/cpu/mmu.c, include/cpu/memory.h, src/cpu/exec/system.h, the slow paths of src/cpu/cpu.c). */
module Translation {

  import opened Basics

  /** One of the two pages of a TLB entry. */
  datatype Phys = Phys(pfn: nat, c: nat, dirty: bool, valid: bool)

  datatype Entry = Entry(pagemask: nat, vpn: nat, global: bool, asid: nat, p0: Phys, p1: Phys)

  /** The CP0 state that translation and the TLB instructions use. */
  datatype Cp0 = Cp0(
    asid: nat, vpn: nat, pagemask: nat, lo0: EntryLo, lo1: EntryLo, index: nat, miss: bool, random: nat,
    erl: bool, exl: bool, badvaddr: nat)

  datatype EntryLo = EntryLo(pfn: nat, c: nat, dirty: bool, valid: bool, global: bool)

  /** What answers at a physical page: nothing, memory that can be mapped, or a device with side effects. */
  datatype Region = Nothing | Ram | Device

  datatype IoEvent = IoRead(addr: nat, len: nat) | IoWrite(addr: nat, len: nat, data: nat)

  const PAGE: nat := 4096
  const SEGMENT: nat := 0x2_0000  // pages in a 512 MB segment

  /** The machine without its translation cache. Memory is by physical address, absent bytes being zero. */
  datatype State = State(tlb: seq<Entry>, cp0: Cp0, exception: bool, mem: map<nat, nat>, io: seq<IoEvent>)

  /** The fixed surroundings: the memory regions by physical page, and what a device answers given its history. */
  datatype World = World(region: nat -> Region, answer: seq<IoEvent> -> nat)

  // ---------------------------------------------------------------------------------------------------------------
  // Page translation

  datatype Walk = Stuck | Missed | Matched(entry: Entry)

  predicate Matches(e: Entry, page: nat, asid: nat) {
    e.vpn == page / 2 && (e.global || e.asid == asid)
  }

  /** The search of page_translate from entry `i` on. Only 4 KB pages are supported: an entry with a page mask that is
      reached before a match fails an assertion. */
  function Search(tlb: seq<Entry>, asid: nat, page: nat, i: nat): Walk
    decreases |tlb| - i
  {
    if i >= |tlb| then Missed
    else if tlb[i].pagemask != 0 then Stuck
    else if Matches(tlb[i], page, asid) then Matched(tlb[i])
    else Search(tlb, asid, page, i + 1)
  }

  datatype Cause = Refill | Invalid | Modified

  /** The outcome of translating a page: a failed assertion, a fault reported under an ASID, or a physical page. */
  datatype Outcome = Halted | Fault(cause: Cause, asid: nat) | To(frame: nat, dirty: bool)

  function Half(e: Entry, page: nat): Phys {
    if page % 2 == 1 then e.p1 else e.p0
  }

  /** page_translate followed by ioremap. */
  function TranslateMapped(tlb: seq<Entry>, asid: nat, page: nat, store: bool): Outcome {
    match Search(tlb, asid, page, 0)
    case Stuck => Halted
    case Missed => Fault(Refill, asid)
    case Matched(e) =>
      var p := Half(e, page);
      if !p.valid then Fault(Invalid, e.asid)
      else if !p.dirty && store then Fault(Modified, e.asid)
      else To(p.pfn % SEGMENT, p.dirty)
  }

  /** prot_addr_with_attr on a virtual page number. */
  function Translate(tlb: seq<Entry>, asid: nat, erl: bool, page: nat, store: bool): Outcome {
    var segment := page / SEGMENT % 8;
    if segment == 4 || segment == 5 then To(page % SEGMENT, false)
    else if segment == 7 then Halted
    else if segment != 6 && erl then To(page, false)
    else TranslateMapped(tlb, asid, page, store)
  }

  // ---------------------------------------------------------------------------------------------------------------
  // Memory

  function ByteAt(mem: map<nat, nat>, a: nat): nat {
    if a in mem then mem[a] else 0
  }

  /** The little-endian number in `len` bytes from address `a`. */
  function ReadBytes(mem: map<nat, nat>, a: nat, len: nat): nat
    decreases len
  {
    if len == 0 then 0 else ByteAt(mem, a) + 256 * ReadBytes(mem, a + 1, len - 1)
  }

  function WriteBytes(mem: map<nat, nat>, a: nat, len: nat, data: nat): map<nat, nat>
    decreases len
  {
    if len == 0 then mem else WriteBytes(mem[a := data % 256], a + 1, len - 1, data / 256)
  }

  /** The device access at the end of the slow path. Memory addressed beyond 512 MB fails its range check. */
  function DeviceRead(w: World, s: State, frame: nat, offset: nat, len: nat): Option<(nat, State)> {
    var addr := frame * PAGE + offset;
    match w.region(frame % SEGMENT)
    case Nothing => None
    case Ram => if frame >= SEGMENT then None else Some((ReadBytes(s.mem, addr, len), s))
    case Device => var io := s.io + [IoRead(addr, len)]; Some((w.answer(io), s.(io := io)))
  }

  function DeviceWrite(w: World, s: State, frame: nat, offset: nat, len: nat, data: nat): Option<(nat, State)> {
    var addr := frame * PAGE + offset;
    match w.region(frame % SEGMENT)
    case Nothing => None
    case Ram => if frame >= SEGMENT then None else Some((0, s.(mem := WriteBytes(s.mem, addr, len, data))))
    case Device => Some((0, s.(io := s.io + [IoWrite(addr, len, data)])))
  }

  // ---------------------------------------------------------------------------------------------------------------
  // Steps

  /** raise_exception. */
  function Raise(s: State): State {
    s.(exception := true, cp0 := s.cp0.(exl := true))
  }

  /** tlb_exception. */
  function TlbException(s: State, page: nat, offset: nat, asid: nat): State {
    Raise(s.(cp0 := s.cp0.(badvaddr := page * PAGE + offset, vpn := page / 2, asid := asid)))
  }

  /** The bits of `a` that are clear in `m`. */
  function ClearBits(a: nat, m: nat): nat {
    if a == 0 then 0 else 2 * ClearBits(a / 2, m / 2) + (if m % 2 == 1 then 0 else a % 2)
  }

  /** tlb_write. */
  function NewEntry(c: Cp0): Entry {
    Entry(c.pagemask, ClearBits(c.vpn, c.pagemask), c.lo0.global && c.lo1.global, c.asid,
          Phys(ClearBits(c.lo0.pfn, c.pagemask), c.lo0.c, c.lo0.dirty, c.lo0.valid),
          Phys(ClearBits(c.lo1.pfn, c.pagemask), c.lo1.c, c.lo1.dirty, c.lo1.valid))
  }

  /** tlb_read. */
  function ReadEntry(c: Cp0, e: Entry): Cp0 {
    c.(pagemask := e.pagemask, vpn := ClearBits(e.vpn, e.pagemask), asid := e.asid,
       lo0 := EntryLo(ClearBits(e.p0.pfn, e.pagemask), e.p0.c, e.p0.dirty, e.p0.valid, e.global),
       lo1 := EntryLo(ClearBits(e.p1.pfn, e.pagemask), e.p1.c, e.p1.dirty, e.p1.valid, e.global))
  }

  /** tlb_present: the first entry matching EntryHi, if no page mask comes in the way. */
  function Probe(tlb: seq<Entry>, c: Cp0, i: nat): Option<Cp0>
    decreases |tlb| - i
  {
    if i >= |tlb| then Some(c.(miss := true))
    else if tlb[i].pagemask != 0 then None
    else if tlb[i].vpn == c.vpn && (tlb[i].global || tlb[i].asid == c.asid) then Some(c.(miss := false, index := i))
    else Probe(tlb, c, i + 1)
  }

  datatype Op =
    | Load(page: nat, offset: nat, len: nat)
    | Store(page: nat, offset: nat, len: nat, data: nat)
    | Tlbwi
    | Tlbwr(random: nat)
    | Tlbr
    | Tlbp
    | Mtc0EntryHi(vpn: nat, asid: nat)
    | Mtc0EntryLo(lo0: EntryLo, lo1: EntryLo)
    | Mtc0PageMask(mask: nat)
    | Mtc0Index(index: nat)
    | Mtc0Status(erl: bool, exl: bool)
    | Exception
    | Eret
    | NextInstruction

  /** One step of the machine without a cache: the data it yields and the state after it; None when the simulator
      stops on a failed assertion. */
  function Step(w: World, s: State, op: Op): Option<(nat, State)> {
    match op
    case Load(page, offset, len) =>
      (match Translate(s.tlb, s.cp0.asid, s.cp0.erl, page, false)
       case Halted => None
       case Fault(_, asid) => Some((0, TlbException(s, page, offset, asid)))
       case To(frame, _) => DeviceRead(w, s, frame, offset, len))
    case Store(page, offset, len, data) =>
      (match Translate(s.tlb, s.cp0.asid, s.cp0.erl, page, true)
       case Halted => None
       case Fault(_, asid) => Some((0, TlbException(s, page, offset, asid)))
       case To(frame, _) => DeviceWrite(w, s, frame, offset, len, data))
    case Tlbwi =>
      if s.cp0.index >= |s.tlb| then None else Some((0, s.(tlb := s.tlb[s.cp0.index := NewEntry(s.cp0)])))
    case Tlbwr(random) =>
      if |s.tlb| == 0 then None
      else
        var i := random % |s.tlb|;
        Some((0, s.(cp0 := s.cp0.(random := i), tlb := s.tlb[i := NewEntry(s.cp0)])))
    case Tlbr =>
      if s.cp0.index >= |s.tlb| then None else Some((0, s.(cp0 := ReadEntry(s.cp0, s.tlb[s.cp0.index]))))
    case Tlbp =>
      var c := Probe(s.tlb, s.cp0, 0);
      if c.None? then None else Some((0, s.(cp0 := c.value)))
    case Mtc0EntryHi(vpn, asid) => Some((0, s.(cp0 := s.cp0.(vpn := vpn, asid := asid))))
    case Mtc0EntryLo(lo0, lo1) => Some((0, s.(cp0 := s.cp0.(lo0 := lo0, lo1 := lo1))))
    case Mtc0PageMask(mask) => Some((0, s.(cp0 := s.cp0.(pagemask := mask))))
    case Mtc0Index(index) => Some((0, s.(cp0 := s.cp0.(index := index))))
    case Mtc0Status(erl, exl) => Some((0, s.(cp0 := s.cp0.(erl := erl, exl := exl))))
    case Exception => Some((0, Raise(s)))
    case Eret =>
      Some((0, s.(exception := true, cp0 := if s.cp0.erl then s.cp0.(erl := false) else s.cp0.(exl := false))))
    case NextInstruction => Some((0, s.(exception := false)))
  }

  /** The state after a run, unless the simulator stops. */
  function RunEnd(w: World, s: State, ops: seq<Op>): Option<State>
    decreases ops
  {
    if ops == [] then Some(s)
    else
      var r := Step(w, s, ops[0]);
      if r.None? then None else RunEnd(w, r.value.1, ops[1..])
  }

  /** The data yielded by a run, until it ends or the simulator stops. */
  function Run(w: World, s: State, ops: seq<Op>): seq<nat>
    decreases ops
  {
    if ops == [] then []
    else
      var r := Step(w, s, ops[0]);
      if r.None? then [] else [r.value.0] + Run(w, r.value.1, ops[1..])
  }
}
