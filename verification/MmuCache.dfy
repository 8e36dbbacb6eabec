/** The translation cache in front of the TLB: src/cpu/mmu-cache.h and the fast paths of vaddr_read and vaddr_write in
    src/cpu/cpu.c. The cached machine is shown to behave as the machine of module Translation. */
module MmuCache {
  import opened Basics
  import opened Translation

  const LINES: nat := 4096
  const NO_ID: nat := 0xFFFF_FFFF

  /** A cache line: the upper bits of the virtual page it is for, the physical page its pointer leads to, and whether a
      store may use it. */
  datatype Line = Line(id: nat, frame: nat, canWrite: bool)

  function LineIndex(page: nat): (i: nat)
    ensures i < LINES
  {
    page % LINES
  }

  function LineId(page: nat): nat {
    page / LINES
  }

  /** What a valid line promises about its page: loads translate to the frame, which is memory, and if the line may be
      written, so do stores. */
  ghost predicate Right(w: World, s: State, page: nat, line: Line) {
    && line.frame < SEGMENT && w.region(line.frame) == Ram
    && (var t := Translate(s.tlb, s.cp0.asid, s.cp0.erl, page, false); t.To? && t.frame == line.frame)
    && (line.canWrite ==> var t := Translate(s.tlb, s.cp0.asid, s.cp0.erl, page, true); t.To? && t.frame == line.frame)
  }

  /** A page whose translation goes through the TLB. */
  predicate UsesTlb(s: State, page: nat) {
    var segment := page / SEGMENT % 8;
    segment == 6 || (segment < 4 && !s.cp0.erl)
  }

  /** A page that every ASID translates alike: it does not go through the TLB, or all entries for it are global. */
  ghost predicate Steady(s: State, page: nat) {
    UsesTlb(s, page) ==> forall i :: 0 <= i < |s.tlb| && s.tlb[i].vpn == page / 2 ==> s.tlb[i].global
  }

  /** Every line that holds an id is right for the page it stands for. When tlbr has changed the ASID since the cache
      was cleared (`stale`), this is so for the steady pages only. */
  ghost predicate Agrees(w: World, s: State, stale: bool, lines: seq<Line>) {
    |lines| == LINES &&
    forall i :: 0 <= i < LINES && lines[i].id != NO_ID && (stale ==> Steady(s, lines[i].id * LINES + i)) ==>
      Right(w, s, lines[i].id * LINES + i, lines[i])
  }

  /** Translation looks at nothing but the TLB, the ASID and ERL. */
  ghost predicate SameTranslation(s: State, t: State) {
    s.tlb == t.tlb && s.cp0.asid == t.cp0.asid && s.cp0.erl == t.cp0.erl
  }

  lemma AgreesTransfer(w: World, s: State, t: State, stale: bool, lines: seq<Line>)
    requires Agrees(w, s, stale, lines) && SameTranslation(s, t)
    ensures Agrees(w, t, stale, lines)
  {
    forall i | 0 <= i < LINES && lines[i].id != NO_ID && (stale ==> Steady(t, lines[i].id * LINES + i))
      ensures Right(w, t, lines[i].id * LINES + i, lines[i])
    {
      assert Steady(s, lines[i].id * LINES + i) <==> Steady(t, lines[i].id * LINES + i);
      assert Right(w, s, lines[i].id * LINES + i, lines[i]);
    }
  }

  lemma {:induction false} SteadySearch(tlb: seq<Entry>, a: nat, b: nat, page: nat, i: nat)
    requires forall k :: 0 <= k < |tlb| && tlb[k].vpn == page / 2 ==> tlb[k].global
    ensures Search(tlb, a, page, i) == Search(tlb, b, page, i)
    decreases |tlb| - i
  {
    if i < |tlb| { SteadySearch(tlb, a, b, page, i + 1); }
  }

  /** On a steady page a line stays right when the ASID changes. */
  lemma SteadyRight(w: World, s: State, t: State, page: nat, line: Line)
    requires Right(w, s, page, line) && Steady(s, page) && t.tlb == s.tlb && t.cp0.erl == s.cp0.erl
    ensures Right(w, t, page, line)
  {
    if UsesTlb(s, page) { SteadySearch(s.tlb, s.cp0.asid, t.cp0.asid, page, 0); }
  }

  /** A change of ASID that leaves the cache alone. */
  lemma AgreesStale(w: World, s: State, t: State, stale: bool, lines: seq<Line>)
    requires Agrees(w, s, stale, lines) && t.tlb == s.tlb && t.cp0.erl == s.cp0.erl
    ensures Agrees(w, t, true, lines)
  {
    forall i | 0 <= i < LINES && lines[i].id != NO_ID && Steady(t, lines[i].id * LINES + i)
      ensures Right(w, t, lines[i].id * LINES + i, lines[i])
    {
      var page := lines[i].id * LINES + i;
      assert Steady(s, page) <==> Steady(t, page);
      SteadyRight(w, s, t, page, lines[i]);
    }
  }

  /** A successful load from memory of a dirty page can be repeated as a store; a successful store as a load. */
  lemma LoadAndStore(tlb: seq<Entry>, asid: nat, erl: bool, page: nat)
    ensures var l, s := Translate(tlb, asid, erl, page, false), Translate(tlb, asid, erl, page, true);
            (l.To? && l.dirty ==> s == l) && (s.To? ==> l == s)
  {}

  /** A hit is for the page asked for. */
  lemma Hit(w: World, s: State, stale: bool, lines: seq<Line>, page: nat)
    requires Agrees(w, s, stale, lines) && page < 0x10_0000 && lines[LineIndex(page)].id == LineId(page)
    requires stale ==> Steady(s, page)
    ensures Right(w, s, page, lines[LineIndex(page)])
  {
    var i := LineIndex(page);
    assert lines[i].id * LINES + i == page;
    assert lines[i].id != NO_ID;
  }

  /** Through a right line a load does what the slow path would do. */
  lemma LoadHit(w: World, s: State, page: nat, offset: nat, len: nat, line: Line)
    requires Right(w, s, page, line)
    ensures Step(w, s, Load(page, offset, len)) == Some((ReadBytes(s.mem, line.frame * PAGE + offset, len), s))
  {}

  /** Through a right line that may be written a store does what the slow path would do, and does not fault. */
  lemma StoreHit(w: World, s: State, page: nat, offset: nat, len: nat, data: nat, line: Line)
    requires Right(w, s, page, line) && line.canWrite
    ensures Step(w, s, Store(page, offset, len, data)) ==
            Some((0, s.(mem := WriteBytes(s.mem, line.frame * PAGE + offset, len, data))))
  {}

  /** Filling a line from the slow path. */
  lemma Fill(w: World, s: State, stale: bool, lines: seq<Line>, page: nat, line: Line)
    requires Agrees(w, s, stale, lines) && line.id == LineId(page) && Right(w, s, page, line)
    ensures Agrees(w, s, stale, lines[LineIndex(page) := line])
  {
    var i := LineIndex(page);
    assert line.id * LINES + i == page;
    var filled := lines[i := line];
    forall k | 0 <= k < LINES && filled[k].id != NO_ID && (stale ==> Steady(s, filled[k].id * LINES + k))
      ensures Right(w, s, filled[k].id * LINES + k, filled[k])
    {
      if k != i { assert Right(w, s, lines[k].id * LINES + k, lines[k]); }
    }
  }

  class Machine {
    const world: World
    var tlb: seq<Entry>
    var cp0: Cp0
    var exception: bool
    var mem: map<nat, nat>
    var io: seq<IoEvent>
    const cache: array<Line>

    /** tlbr has changed the ASID since the cache was cleared. */
    ghost var stale: bool

    constructor (world: World, s: State)
      ensures this.world == world && View() == s && Valid() && !stale && fresh(cache)
    {
      this.world, stale := world, false;
      tlb, cp0, exception, mem, io := s.tlb, s.cp0, s.exception, s.mem, s.io;
      cache := new Line[LINES](_ => Line(NO_ID, 0, false));
      new;
      assert Cleared(cache[..]);
    }

    /** The state of the machine as seen without the cache. */
    function View(): State
      reads this
    {
      State(tlb, cp0, exception, mem, io)
    }

    ghost predicate Valid()
      reads this, cache
    {
      cache.Length == LINES && Agrees(world, View(), stale, cache[..])
    }

    /** An access to the page goes by the present translation. */
    ghost predicate Usable(page: nat)
      reads this
    {
      page < 0x10_0000 && (stale ==> Steady(View(), page))
    }

    /** clear_mmu_cache. */
    method ClearMmuCache()
      requires cache.Length == LINES
      modifies cache, `stale
      ensures Cleared(cache[..]) && Valid() && !stale
    {
      for i := 0 to cache.Length
        invariant forall k :: 0 <= k < i ==> cache[k].id == NO_ID
      {
        cache[i] := cache[i].(id := NO_ID, frame := 0);
      }
      stale := false;
    }

    /** update_mmu_cache, for a translated page. */
    method UpdateMmuCache(page: nat, frame: nat, canWrite: bool)
      requires Valid()
      requires !exception && frame < SEGMENT && world.region(frame) == Ram ==>
        Right(world, View(), page, Line(LineId(page), frame, canWrite))
      requires frame < SEGMENT || world.region(frame % SEGMENT) != Ram
      modifies cache
      ensures Valid()
    {
      if exception {
        return;
      }
      if world.region(frame % SEGMENT) == Ram {
        var line := Line(LineId(page), frame, canWrite);
        Fill(world, View(), stale, cache[..], page, line);
        ghost var lines := cache[..];
        cache[LineIndex(page)] := line;
        assert cache[..] == lines[LineIndex(page) := line];
      }
    }

    /** raise_exception. */
    method RaiseException()
      requires cache.Length == LINES
      modifies this, cache
      ensures Valid() && !stale && View() == Raise(old(View()))
    {
      exception := true;
      cp0 := cp0.(exl := true);
      ClearMmuCache();
    }

    /** tlb_exception. */
    method RaiseTlbException(page: nat, offset: nat, asid: nat)
      requires cache.Length == LINES
      modifies this, cache
      ensures Valid() && !stale && View() == TlbException(old(View()), page, offset, asid)
    {
      cp0 := cp0.(badvaddr := page * PAGE + offset, vpn := page / 2, asid := asid);
      RaiseException();
    }

    /** The search loop of page_translate. */
    method PageTranslate(page: nat, store: bool) returns (t: Outcome)
      ensures t == TranslateMapped(tlb, cp0.asid, page, store)
    {
      var i := 0;
      while i < |tlb|
        invariant 0 <= i <= |tlb|
        invariant Search(tlb, cp0.asid, page, 0) == Search(tlb, cp0.asid, page, i)
      {
        var e := tlb[i];
        if e.pagemask != 0 {
          return Halted;
        }
        if Matches(e, page, cp0.asid) {
          var p := Half(e, page);
          if !p.valid {
            return Fault(Invalid, e.asid);
          }
          if !p.dirty && store {
            return Fault(Modified, e.asid);
          }
          return To(p.pfn % SEGMENT, p.dirty);
        }
        i := i + 1;
      }
      t := Fault(Refill, cp0.asid);
    }

    /** prot_addr_with_attr. */
    method ProtAddr(page: nat, store: bool) returns (t: Outcome)
      ensures t == Translate(tlb, cp0.asid, cp0.erl, page, store)
    {
      var segment := page / SEGMENT % 8;
      if segment == 4 || segment == 5 {
        t := To(page % SEGMENT, false);
      } else if segment == 7 {
        t := Halted;
      } else if segment != 6 && cp0.erl {
        t := To(page, false);
      } else {
        t := PageTranslate(page, store);
      }
    }

    /** The handlers of unaligned accesses report their own address. */
    method SetBadVaddr(a: nat)
      requires Valid()
      modifies `cp0
      ensures Valid() && View() == old(View()).(cp0 := old(cp0).(badvaddr := a))
    {
      cp0 := cp0.(badvaddr := a);
      AgreesTransfer(world, old(View()), View(), stale, cache[..]);
    }

    /** The result and the state are those of the machine without a cache, and the cache agrees with it. */
    ghost predicate Follows(r: Option<nat>, s: Option<(nat, State)>)
      reads this, cache
    {
      if s.None? then r.None? else r == Some(s.value.0) && View() == s.value.1 && Valid()
    }

    /** vaddr_read: a hit reads memory through the line, a miss takes the slow path and fills the line. Either way the
        data and the state after it are those of the machine without a cache. */
    method VaddrRead(page: nat, offset: nat, len: nat) returns (r: Option<nat>)
      requires Valid() && Usable(page)
      modifies this, cache
      ensures var op := Load(page, offset, len);
              Follows(r, Step(world, old(View()), op)) && (r.Some? ==> stale == NextStale(old(View()), op, old(stale)))
    {
      var line := cache[LineIndex(page)];
      if line.id == LineId(page) {
        Hit(world, View(), stale, cache[..], page);
        LoadHit(world, View(), page, offset, len, line);
        return Some(ReadBytes(mem, line.frame * PAGE + offset, len));
      }
      var t := ProtAddr(page, false);
      match t
      case Halted =>
        r := None;
      case Fault(_, asid) =>
        RaiseTlbException(page, offset, asid);
        r := Some(0);
      case To(frame, dirty) =>
        LoadAndStore(tlb, cp0.asid, cp0.erl, page);
        r := ReadFrame(page, frame, dirty, offset, len);
    }

    method ReadFrame(page: nat, frame: nat, dirty: bool, offset: nat, len: nat) returns (r: Option<nat>)
      requires Valid()
      requires frame < SEGMENT && world.region(frame) == Ram ==>
        Right(world, View(), page, Line(LineId(page), frame, dirty))
      modifies this`io, cache
      ensures Follows(r, DeviceRead(world, old(View()), frame, offset, len))
    {
      match world.region(frame % SEGMENT)
      case Nothing =>
        r := None;
      case Ram =>
        if frame >= SEGMENT {
          return None;
        }
        UpdateMmuCache(page, frame, dirty);
        r := Some(ReadBytes(mem, frame * PAGE + offset, len));
      case Device =>
        io := io + [IoRead(frame * PAGE + offset, len)];
        AgreesTransfer(world, old(View()), View(), stale, cache[..]);
        r := Some(world.answer(io));
    }

    /** vaddr_write. */
    method VaddrWrite(page: nat, offset: nat, len: nat, data: nat) returns (r: Option<nat>)
      requires Valid() && Usable(page)
      modifies this, cache
      ensures var op := Store(page, offset, len, data);
              Follows(r, Step(world, old(View()), op)) && (r.Some? ==> stale == NextStale(old(View()), op, old(stale)))
    {
      var line := cache[LineIndex(page)];
      if line.id == LineId(page) && line.canWrite {
        Hit(world, View(), stale, cache[..], page);
        StoreHit(world, View(), page, offset, len, data, line);
        mem := WriteBytes(mem, line.frame * PAGE + offset, len, data);
        AgreesTransfer(world, old(View()), View(), stale, cache[..]);
        return Some(0);
      }
      var t := ProtAddr(page, true);
      match t
      case Halted =>
        r := None;
      case Fault(_, asid) =>
        RaiseTlbException(page, offset, asid);
        r := Some(0);
      case To(frame, _) =>
        LoadAndStore(tlb, cp0.asid, cp0.erl, page);
        r := WriteFrame(page, frame, offset, len, data);
    }

    method WriteFrame(page: nat, frame: nat, offset: nat, len: nat, data: nat) returns (r: Option<nat>)
      requires Valid()
      requires frame < SEGMENT && world.region(frame) == Ram ==>
        Right(world, View(), page, Line(LineId(page), frame, true))
      modifies this`mem, this`io, cache
      ensures Follows(r, DeviceWrite(world, old(View()), frame, offset, len, data))
    {
      match world.region(frame % SEGMENT)
      case Nothing =>
        r := None;
      case Ram =>
        if frame >= SEGMENT {
          return None;
        }
        UpdateMmuCache(page, frame, true);
        ghost var before := View();
        mem := WriteBytes(mem, frame * PAGE + offset, len, data);
        AgreesTransfer(world, before, View(), stale, cache[..]);
        r := Some(0);
      case Device =>
        io := io + [IoWrite(frame * PAGE + offset, len, data)];
        AgreesTransfer(world, old(View()), View(), stale, cache[..]);
        r := Some(0);
    }

    /** tlbwi and tlbwr. */
    method TlbWrite(i: nat)
      requires cache.Length == LINES && i < |tlb|
      modifies this`tlb, this`stale, cache
      ensures Valid() && !stale && View() == old(View()).(tlb := old(tlb)[i := NewEntry(cp0)])
    {
      tlb := tlb[i := NewEntry(cp0)];
      ClearMmuCache();
    }

    /** The search loop of tlb_present. */
    method TlbPresent() returns (c: Option<Cp0>)
      ensures c == Probe(tlb, cp0, 0)
    {
      var i := 0;
      while i < |tlb|
        invariant 0 <= i <= |tlb|
        invariant Probe(tlb, cp0, 0) == Probe(tlb, cp0, i)
      {
        if tlb[i].pagemask != 0 {
          return None;
        }
        if tlb[i].vpn == cp0.vpn && (tlb[i].global || tlb[i].asid == cp0.asid) {
          return Some(cp0.(miss := false, index := i));
        }
        i := i + 1;
      }
      c := Some(cp0.(miss := true));
    }

    /** The steps that leave the cache alone. */
    method Unclearing(op: Op) returns (r: Option<nat>)
      requires Valid() && LeavesCache(op)
      modifies this`cp0, this`exception, this`stale
      ensures Follows(r, Step(world, old(View()), op)) && (r.Some? ==> stale == NextStale(old(View()), op, old(stale)))
    {
      r := Some(0);
      ghost var before := View();
      match op {
        case Tlbr =>
          if cp0.index >= |tlb| { return None; }
          cp0 := ReadEntry(cp0, tlb[cp0.index]);
        case Tlbp =>
          var c := TlbPresent();
          ProbeKeeps(tlb, cp0, 0);
          if c.None? { return None; }
          cp0 := c.value;
        case Mtc0EntryLo(lo0, lo1) =>
          cp0 := cp0.(lo0 := lo0, lo1 := lo1);
        case Mtc0PageMask(mask) =>
          cp0 := cp0.(pagemask := mask);
        case Mtc0Index(index) =>
          cp0 := cp0.(index := index);
        case NextInstruction =>
          exception := false;
      }
      if cp0.asid == before.cp0.asid {
        AgreesTransfer(world, before, View(), stale, cache[..]);
      } else {
        AgreesStale(world, before, View(), stale, cache[..]);
        stale := true;
      }
    }

    /** mtc0 to STATUS: the cache is cleared only when ERL changes. */
    method Mtc0ToStatus(erl: bool, exl: bool)
      requires Valid()
      modifies this`cp0, this`stale, cache
      ensures Valid() && View() == old(View()).(cp0 := old(cp0).(erl := erl, exl := exl))
      ensures stale == (old(stale) && old(cp0).erl == erl)
    {
      ghost var before := View();
      if cp0.erl != erl {
        ClearMmuCache();
        ClearedAgrees(world, View().(cp0 := cp0.(erl := erl, exl := exl)), stale, cache[..]);
        cp0 := cp0.(erl := erl, exl := exl);
      } else {
        cp0 := cp0.(erl := erl, exl := exl);
        AgreesTransfer(world, before, View(), stale, cache[..]);
      }
    }

    /** The CP0 and TLB instructions, with the cache invalidations they make. */
    method System(op: Op) returns (r: Option<nat>)
      requires Valid() && !op.Load? && !op.Store?
      modifies this, cache
      ensures Follows(r, Step(world, old(View()), op)) && (r.Some? ==> stale == NextStale(old(View()), op, old(stale)))
    {
      if LeavesCache(op) {
        r := Unclearing(op);
        return;
      }
      r := Some(0);
      match op
      case Tlbwi =>
        if cp0.index >= |tlb| { return None; }
        TlbWrite(cp0.index);
      case Tlbwr(random) =>
        if |tlb| == 0 { return None; }
        ghost var c := cp0;
        cp0 := cp0.(random := random % |tlb|);
        assert NewEntry(cp0) == NewEntry(c);
        TlbWrite(cp0.random);
      case Mtc0EntryHi(vpn, asid) =>
        cp0 := cp0.(vpn := vpn, asid := asid);
        ClearMmuCache();
      case Mtc0Status(erl, exl) =>
        Mtc0ToStatus(erl, exl);
      case Exception =>
        RaiseException();
      case Eret =>
        exception := true;
        cp0 := if cp0.erl then cp0.(erl := false) else cp0.(exl := false);
        ClearMmuCache();
    }

    /** Any run of the cached machine yields the data of the machine without a cache, and ends in the same state. After
        tlbr has changed the ASID, until the cache is cleared next, only steady pages may be accessed. */
    method Execute(ops: seq<Op>) returns (data: seq<nat>)
      requires Valid() && RunAllowed(world, View(), stale, ops)
      modifies this, cache
      ensures data == Run(world, old(View()), ops)
      ensures var s := RunEnd(world, old(View()), ops); s.Some? ==> View() == s.value && Valid()
      decreases ops
    {
      if ops == [] {
        return [];
      }
      var op := ops[0];
      var r;
      if op.Load? {
        r := VaddrRead(op.page, op.offset, op.len);
      } else if op.Store? {
        r := VaddrWrite(op.page, op.offset, op.len, op.data);
      } else {
        r := System(op);
      }
      if r.None? {
        return [];
      }
      var rest := Execute(ops[1..]);
      data := [r.value] + rest;
    }
  }

  ghost predicate Cleared(lines: seq<Line>) {
    |lines| == LINES && forall i :: 0 <= i < LINES ==> lines[i].id == NO_ID
  }

  lemma ClearedAgrees(w: World, s: State, stale: bool, lines: seq<Line>)
    requires Cleared(lines)
    ensures Agrees(w, s, stale, lines)
  {}

  lemma {:induction false} ProbeKeeps(tlb: seq<Entry>, c: Cp0, i: nat)
    ensures Probe(tlb, c, i).Some? ==> Probe(tlb, c, i).value.asid == c.asid && Probe(tlb, c, i).value.erl == c.erl
    decreases |tlb| - i
  {
    if i < |tlb| { ProbeKeeps(tlb, c, i + 1); }
  }

  predicate LeavesCache(op: Op) {
    op.Tlbr? || op.Tlbp? || op.Mtc0EntryLo? || op.Mtc0PageMask? || op.Mtc0Index? || op.NextInstruction?
  }

  /** Whether a step leaves the cache behind the ASID: tlbr may do so, and every step that clears the cache ends it. */
  ghost predicate NextStale(s: State, op: Op, stale: bool) {
    match op
    case Tlbr => stale || (s.cp0.index < |s.tlb| && s.tlb[s.cp0.index].asid != s.cp0.asid)
    case Load(page, _, _) => stale && !Translate(s.tlb, s.cp0.asid, s.cp0.erl, page, false).Fault?
    case Store(page, _, _, _) => stale && !Translate(s.tlb, s.cp0.asid, s.cp0.erl, page, true).Fault?
    case Mtc0Status(erl, _) => stale && s.cp0.erl == erl
    case _ => stale && LeavesCache(op)
  }

  /** Pages are 20 bits wide, and while the cache is behind the ASID only steady pages are accessed. */
  ghost predicate Allowed(s: State, op: Op, stale: bool) {
    match op
    case Load(page, _, _) => page < 0x10_0000 && (stale ==> Steady(s, page))
    case Store(page, _, _, _) => page < 0x10_0000 && (stale ==> Steady(s, page))
    case _ => true
  }

  ghost predicate RunAllowed(w: World, s: State, stale: bool, ops: seq<Op>)
    decreases ops
  {
    ops == [] ||
    (Allowed(s, ops[0], stale) &&
     var r := Step(w, s, ops[0]); r.Some? ==> RunAllowed(w, r.value.1, NextStale(s, ops[0], stale), ops[1..]))
  }

  // ---------------------------------------------------------------------------------------------------------------
  // What tlbr does to the other pages

  function WithAsid(s: State, asid: nat): State {
    s.(cp0 := s.cp0.(asid := asid))
  }

  lemma {:induction false} SearchFinds(tlb: seq<Entry>, asid: nat, page: nat, i: nat) returns (k: nat)
    requires Search(tlb, asid, page, i).Matched?
    ensures i <= k < |tlb| && Matches(tlb[k], page, asid) && Search(tlb, asid, page, i) == Matched(tlb[k])
    ensures forall j :: i <= j <= k ==> tlb[j].pagemask == 0
    decreases |tlb| - i
  {
    if Matches(tlb[i], page, asid) {
      k := i;
    } else {
      k := SearchFinds(tlb, asid, page, i + 1);
    }
  }

  /** Entry `k` is the first that matches, and no page mask comes before it. */
  ghost predicate FirstMatch(tlb: seq<Entry>, asid: nat, page: nat, i: nat, k: nat) {
    && i <= k < |tlb| && Matches(tlb[k], page, asid)
    && forall j :: i <= j <= k ==> tlb[j].pagemask == 0 && (j < k ==> !Matches(tlb[j], page, asid))
  }

  lemma {:induction false} SearchAt(tlb: seq<Entry>, asid: nat, page: nat, i: nat, k: nat)
    requires FirstMatch(tlb, asid, page, i, k)
    ensures Search(tlb, asid, page, i) == Matched(tlb[k])
    decreases |tlb| - i
  {
    if i < k { SearchAt(tlb, asid, page, i + 1, k); }
  }

  /** At most one TLB entry matches the page under one or the other ASID. */
  ghost predicate OneEntry(tlb: seq<Entry>, page: nat, a: nat, b: nat) {
    forall i, j ::
      0 <= i < |tlb| && 0 <= j < |tlb| && MatchesEither(tlb[i], page, a, b) && MatchesEither(tlb[j], page, a, b) ==>
        i == j
  }

  predicate MatchesEither(e: Entry, page: nat, a: nat, b: nat) {
    Matches(e, page, a) || Matches(e, page, b)
  }

  /** If no second entry is in play, a cached translation survives a change of ASID without a clear exactly when the TLB
      entry it came from is global or the ASID is the same after all. */
  lemma AsidChangeExact(w: World, s: State, page: nat, line: Line, asid: nat) returns (k: nat)
    requires Right(w, s, page, line) && UsesTlb(s, page) && OneEntry(s.tlb, page, s.cp0.asid, asid)
    ensures k < |s.tlb| && Matches(s.tlb[k], page, s.cp0.asid)
    ensures Right(w, WithAsid(s, asid), page, line) <==> s.tlb[k].global || asid == s.cp0.asid
  {
    k := SearchFinds(s.tlb, s.cp0.asid, page, 0);
    if Search(s.tlb, asid, page, 0).Matched? {
      var j := SearchFinds(s.tlb, asid, page, 0);
      assert MatchesEither(s.tlb[j], page, s.cp0.asid, asid) && MatchesEither(s.tlb[k], page, s.cp0.asid, asid);
    } else if Matches(s.tlb[k], page, asid) {
      assert MatchesEither(s.tlb[k], page, s.cp0.asid, asid);
      forall i | 0 <= i < k ensures !Matches(s.tlb[i], page, asid) {
        assert MatchesEither(s.tlb[i], page, s.cp0.asid, asid) ==> i == k;
      }
      SearchAt(s.tlb, asid, page, 0, k);
    }
  }

  /** If the new ASID has an entry of its own for the page, the line survives exactly when that entry is valid and leads
      to the same frame, and can be written if the line can. */
  lemma AsidChangeOwnEntry(w: World, s: State, page: nat, line: Line, asid: nat, k: nat)
    requires Right(w, s, page, line) && UsesTlb(s, page) && FirstMatch(s.tlb, asid, page, 0, k)
    ensures var p := Half(s.tlb[k], page);
            Right(w, WithAsid(s, asid), page, line) <==>
            p.valid && p.pfn % SEGMENT == line.frame && (line.canWrite ==> p.dirty)
  {
    SearchAt(s.tlb, asid, page, 0, k);
  }

  /** If it has none, the line does not survive. */
  lemma AsidChangeNoEntry(w: World, s: State, page: nat, line: Line, asid: nat)
    requires UsesTlb(s, page) && forall i :: 0 <= i < |s.tlb| ==> !Matches(s.tlb[i], page, asid)
    ensures !Right(w, WithAsid(s, asid), page, line)
  {
    if Search(s.tlb, asid, page, 0).Matched? {
      var j := SearchFinds(s.tlb, asid, page, 0);
    }
  }

  /** The entry of an address space that maps page 0 to a frame. */
  function PageZero(asid: nat, frame: nat): Entry {
    Entry(0, 0, false, asid, Phys(frame, 0, true, true), Phys(0, 0, false, false))
  }

  /** A failing case: two address spaces map page 0 to different frames. In the first, tlbr of the entry of the second
      leaves the line for page 0 in the cache, and a load through it reads the first one's memory where the machine
      without a cache reads the second one's. */
  lemma TlbrLeavesStaleLine(w: World, s: State, offset: nat, len: nat)
    requires s.tlb == [PageZero(1, 10), PageZero(2, 20)] && s.cp0.asid == 1 && s.cp0.index == 1 && !s.cp0.erl
    requires w.region(10) == Ram && w.region(20) == Ram
    ensures var line := Line(LineId(0), 10, true);
            && Right(w, s, 0, line)
            && Step(w, s, Load(0, offset, len)) == Some((ReadBytes(s.mem, 10 * PAGE + offset, len), s))
            && Step(w, s, Tlbr).Some?
            && var t := Step(w, s, Tlbr).value.1;
               && !Right(w, t, 0, line) && NextStale(s, Tlbr, false)
               && Step(w, t, Load(0, offset, len)) == Some((ReadBytes(s.mem, 20 * PAGE + offset, len), t))
  {
    SearchAt(s.tlb, 1, 0, 0, 0);
    SearchAt(s.tlb, 2, 0, 0, 1);
  }
}
