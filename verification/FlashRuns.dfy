/** What every run of the flash keeps, and what its read and program commands do. */
module FlashRuns {
  import opened Bitwise
  import opened Modular
  import opened FlashChip

  /** File and storage agree outside the dirty page. */
  ghost predicate Synced(f: Flash) {
    |f.file| == |f.storage| &&
    forall a :: 0 <= a < |f.storage| && a / PAGE_SIZE != f.dirty ==> f.file[a] == f.storage[a]
  }

  ghost predicate Good(p: Part, f: Flash) {
    Valid(p, f) && Synced(f)
  }

  lemma CopyAreaAt(t: seq<Byte>, s: seq<Byte>, lo: nat, hi: nat, a: nat)
    requires lo <= hi <= |s| == |t| && a < |t|
    ensures |CopyArea(t, s, lo, hi)| == |t| && CopyArea(t, s, lo, hi)[a] == if lo <= a < hi then s[a] else t[a]
  {}

  /** An erase reaches storage and file alike. */
  lemma EraseKeeps(p: Part, f: Flash, a: Area)
    requires Good(p, f) && Fits(p, a)
    ensures Good(p, EraseNow(p, f, a)) && EraseNow(p, f, a).regs == f.regs
  {
    var g := EraseNow(p, f, a);
    if a.Area? && f.regs.writeEnable {
      var hi := a.offset + a.len;
      assert |g.storage| == p.size;
      forall i | 0 <= i < |g.storage| && i / PAGE_SIZE != g.dirty ensures g.file[i] == g.storage[i] {
        CopyAreaAt(f.file, g.storage, a.offset, hi, i);
        if i < a.offset { assert g.storage[i] == f.storage[i]; }
        if i >= hi { assert g.storage[i] == f.storage[i]; }
      }
    }
  }

  /** Syncing: afterwards only a new dirty page may differ. */
  lemma SyncKeeps(p: Part, f: Flash, page: int)
    requires Valid(p, f) && -1 <= page < p.size / PAGE_SIZE
    requires forall a :: 0 <= a < |f.storage| && a / PAGE_SIZE != f.dirty && a / PAGE_SIZE != page ==>
      f.file[a] == f.storage[a]
    ensures var g := SyncDirty(p, f, page);
            Valid(p, g.(dirty := page)) && Valid(p, g) && g.regs == f.regs && g.storage == f.storage &&
            Synced(g.(dirty := page))
  {
    var g := SyncDirty(p, f, page);
    if f.dirty >= 0 && f.dirty != page {
      PageInside(p, f.dirty);
      forall a | 0 <= a < |f.storage| && a / PAGE_SIZE != page ensures g.file[a] == g.storage[a] {
        CopyAreaAt(f.file, f.storage, f.dirty * PAGE_SIZE, (f.dirty + 1) * PAGE_SIZE, a);
      }
      assert |g.file| == |f.file|;
    }
  }

  lemma AddrPage(p: Part, a: nat)
    requires ValidPart(p) && a < p.size
    ensures a / PAGE_SIZE < p.size / PAGE_SIZE
  {}

  lemma WriteKeeps(p: Part, f: Flash, b: Byte)
    requires Good(p, f)
    ensures Good(p, Write8(p, f, b)) && Write8(p, f, b).regs == f.regs
  {
    var a := f.regs.addr;
    AddrPage(p, a);
    var g := f.(storage := f.storage[a := if p.eeprom then b else And(f.storage[a], b)]);
    SyncKeeps(p, g, a / PAGE_SIZE);
  }

  /** Every byte keeps storage and file in agreement outside the dirty page. */
  lemma TransferKeeps(p: Part, f: Flash, tx: Byte)
    requires Good(p, f) && Fits(p, Triggered(p, f.regs, tx))
    ensures Good(p, Transfer(p, f, tx).1)
  {
    var r := f.regs;
    match r.state
    case PageProgram =>
      WriteKeeps(p, f, tx);
    case Idle =>
      var g := f.(regs := Decode(p, r, tx));
      if IsBulk(tx) { EraseKeeps(p, g, Area(0, p.size)); }
    case Collecting =>
      TakeByteKeeps(p, f, tx);
    case CollectingVarLen =>
      TakeByteKeeps(p, f, tx);
    case _ =>
  }

  lemma TakeByteKeeps(p: Part, f: Flash, tx: Byte)
    requires Good(p, f) && Fits(p, CompletedArea(p, f.regs, tx))
    ensures Good(p, TakeByte(p, f, tx))
  {
    var r := f.regs;
    if r.len < BUFFER && r.len + 1 == r.needed {
      var c := r.(data := r.data[r.len := tx], len := r.len + 1);
      EraseKeeps(p, f.(regs := Complete(p, c)), EraseArea(p, c.cmd, CollectedAddress(p, c)));
    }
  }

  /** Selecting the chip leaves storage and file equal. */
  lemma SelectSyncs(p: Part, f: Flash)
    requires Good(p, f) && Fits(p, SelectArea(p, f.regs))
    ensures var g := Select(p, f);
            Good(p, g) && g.file == g.storage && g.dirty == -1 && g.regs.state == Idle && !g.regs.readLoop
  {
    var g := f;
    if f.regs.state == CollectingVarLen {
      EraseKeeps(p, f.(regs := Complete(p, f.regs)), SelectArea(p, f.regs));
      g := EraseNow(p, f.(regs := Complete(p, f.regs)), SelectArea(p, f.regs));
    }
    var h := g.(regs := g.regs.(len := 0, pos := 0, state := Idle));
    SyncKeeps(p, h, -1);
    var k := SyncDirty(p, h, -1);
    assert k.dirty == -1;
    assert forall a :: 0 <= a < |k.storage| ==> k.file[a] == k.storage[a];
  }

  // ---------------------------------------------------------------------------------------------------------------
  // Runs

  datatype Event = Send(tx: Byte) | ChipSelect

  ghost predicate InRange(p: Part, f: Flash, e: Event)
    requires Valid(p, f)
  {
    match e
    case Send(tx) => Fits(p, Triggered(p, f.regs, tx))
    case ChipSelect => Fits(p, SelectArea(p, f.regs))
  }

  ghost function StepOn(p: Part, f: Flash, e: Event): Flash
    requires Valid(p, f) && InRange(p, f, e)
  {
    match e
    case Send(tx) => Transfer(p, f, tx).1
    case ChipSelect => Select(p, f)
  }

  /** A run all of whose erases stay inside the array, from `f` to `g`. */
  ghost predicate IsRun(p: Part, f: Flash, events: seq<Event>, g: Flash)
    decreases events
  {
    if events == [] then f == g
    else Valid(p, f) && InRange(p, f, events[0]) && IsRun(p, StepOn(p, f, events[0]), events[1..], g)
  }

  /** At the end of every run storage and file agree outside the dirty page, and everywhere if the run ended with a
      chip select. */
  lemma {:induction false} RunKeeps(p: Part, f: Flash, events: seq<Event>, g: Flash)
    requires Good(p, f) && IsRun(p, f, events, g)
    ensures Good(p, g)
    ensures events != [] && events[|events| - 1] == ChipSelect ==> g.file == g.storage
    decreases events
  {
    if events != [] {
      var e := events[0];
      match e {
        case Send(tx) => TransferKeeps(p, f, tx);
        case ChipSelect => SelectSyncs(p, f);
      }
      RunKeeps(p, StepOn(p, f, e), events[1..], g);
    }
  }

  // ---------------------------------------------------------------------------------------------------------------
  // Sending several bytes

  type Stepper = (Flash, Byte) -> (Byte, Flash)
  type Guard = (Flash, Byte) -> bool

  /** The bytes answered to a list of bytes, and the chip afterwards. */
  ghost function Feed(step: Stepper, f: Flash, txs: seq<Byte>): (r: (seq<Byte>, Flash))
    ensures |r.0| == |txs|
    decreases txs
  {
    if txs == [] then ([], f)
    else
      var (b, g) := step(f, txs[0]);
      var (bs, h) := Feed(step, g, txs[1..]);
      ([b] + bs, h)
  }

  /** Every byte of a list is sent in a state that allows it. */
  ghost predicate AllAllowed(step: Stepper, ok: Guard, f: Flash, txs: seq<Byte>)
    decreases txs
  {
    txs == [] || (ok(f, txs[0]) && AllAllowed(step, ok, step(f, txs[0]).1, txs[1..]))
  }

  lemma {:induction false} FeedConcat(step: Stepper, ok: Guard, f: Flash, xs: seq<Byte>, ys: seq<Byte>)
    ensures var (bs, g) := Feed(step, f, xs);
            var (cs, h) := Feed(step, g, ys);
            Feed(step, f, xs + ys) == (bs + cs, h) &&
            (AllAllowed(step, ok, f, xs) && AllAllowed(step, ok, g, ys) ==> AllAllowed(step, ok, f, xs + ys))
    decreases xs
  {
    if xs == [] {
      assert xs + ys == ys;
      assert [] + Feed(step, f, ys).0 == Feed(step, f, ys).0;
    } else {
      assert (xs + ys)[0] == xs[0] && (xs + ys)[1..] == xs[1..] + ys;
      var (b, g) := step(f, xs[0]);
      FeedConcat(step, ok, g, xs[1..], ys);
      var (bs, h) := Feed(step, g, xs[1..]);
      var cs := Feed(step, h, ys).0;
      assert [b] + (bs + cs) == ([b] + bs) + cs;
    }
  }

  /** The states and bytes for which the model is defined: an erase that the byte sets off stays inside the array. */
  ghost function Allowed(p: Part): Guard {
    (f: Flash, tx: Byte) => Valid(p, f) && Fits(p, Triggered(p, f.regs, tx))
  }

  /** The chip as a function of any state and byte. */
  ghost function Chip(p: Part): Stepper {
    (f: Flash, tx: Byte) => if Valid(p, f) && Fits(p, Triggered(p, f.regs, tx)) then Transfer(p, f, tx) else (0, f)
  }

  // ---------------------------------------------------------------------------------------------------------------
  // Reading and programming

  /** A chip waiting for a command, with three-byte addresses. Its size is a power of two, as addresses are masked. */
  ghost predicate Ready(p: Part, f: Flash) {
    Valid(p, f) && IsPower(p.size) && f.regs.state == Idle && !f.regs.fourByte && !p.eepromOnly
  }

  /** The address that the extended address register and three address bytes denote. */
  function Address(p: Part, ear: Byte, a2: Byte, a1: Byte, a0: Byte): (a: nat)
    requires p.size > 0
    ensures a < p.size
  {
    var e: nat, x: nat, y: nat, z: nat := ear, a2, a1, a0;
    (0x100_0000 * e + 0x1_0000 * x + 0x100 * y + z) % p.size
  }

  lemma ThreeBytes(ear: Byte, data: seq<Byte>, a2: Byte, a1: Byte, a0: Byte)
    requires |data| == BUFFER && data[0] == a2 && data[1] == a1 && data[2] == a0
    ensures var e: nat, x: nat, y: nat, z: nat := ear, a2, a1, a0;
            Assemble(ear, data, 3) == 0x100_0000 * e + 0x1_0000 * x + 0x100 * y + z
  {
    var e: nat, x: nat, y: nat := ear, a2, a1;
    assert Assemble(ear, data, 1) == 256 * e + x;
    assert Assemble(ear, data, 2) == 256 * (256 * e + x) + y;
  }

  /** Collecting the second of the three address bytes, or the first. */
  lemma CollectStep(p: Part, f: Flash, tx: Byte)
    requires Valid(p, f) && f.regs.state == Collecting && f.regs.needed == 3 && f.regs.len < 2
    ensures Allowed(p)(f, tx)
    ensures Chip(p)(f, tx) == (0, f.(regs := f.regs.(data := f.regs.data[f.regs.len := tx], len := f.regs.len + 1)))
  {}

  lemma CommandStep(p: Part, f: Flash, cmd: Byte)
    requires Ready(p, f) && (cmd == READ || cmd == PP)
    ensures Allowed(p)(f, cmd)
    ensures Chip(p)(f, cmd) == (0, f.(regs := Collect(f.regs.(cmd := cmd, resetEnable := false), 3)))
  {}

  /** The last address byte of a read or program command. */
  lemma CompleteStep(p: Part, f: Flash, tx: Byte)
    requires Valid(p, f) && f.regs.state == Collecting && f.regs.needed == 3 && f.regs.len == 2
    requires (f.regs.cmd == READ || f.regs.cmd == PP) && !f.regs.fourByte && !p.eepromOnly && IsPower(p.size)
    ensures Allowed(p)(f, tx)
    ensures Chip(p)(f, tx) == (0, f.(regs := f.regs.(
              data := f.regs.data[2 := tx], len := 3,
              addr := Address(p, f.regs.ear, f.regs.data[0], f.regs.data[1], tx),
              state := if f.regs.cmd == READ then Reading else PageProgram)))
  {
    var c := f.regs.(data := f.regs.data[2 := tx], len := 3);
    ThreeBytes(c.ear, c.data, c.data[0], c.data[1], tx);
    assert AddrLength(p, c) == 3;
    MaskIsRemainder(Assemble(c.ear, c.data, 3), p.size);
    assert CollectedAddress(p, c) == Address(p, c.ear, c.data[0], c.data[1], tx);
  }

  ghost predicate AtAddress(p: Part, f: Flash, g: Flash, cmd: Byte, a2: Byte, a1: Byte, a0: Byte)
    requires p.size > 0
  {
    && g.storage == f.storage && g.file == f.file && g.dirty == f.dirty && Valid(p, g)
    && g.regs.addr == Address(p, f.regs.ear, a2, a1, a0) && g.regs.ear == f.regs.ear && !g.regs.fourByte
    && g.regs.state == (if cmd == READ then Reading else PageProgram)
  }

  lemma FeedCons(step: Stepper, ok: Guard, f: Flash, x: Byte, xs: seq<Byte>, b: Byte, g: Flash)
    requires ok(f, x) && step(f, x) == (b, g) && AllAllowed(step, ok, g, xs)
    ensures AllAllowed(step, ok, f, [x] + xs)
    ensures Feed(step, f, [x] + xs) == ([b] + Feed(step, g, xs).0, Feed(step, g, xs).1)
  {
    assert ([x] + xs)[0] == x && ([x] + xs)[1..] == xs;
  }

  function Zeros(n: nat): (s: seq<Byte>)
    ensures |s| == n && forall i :: 0 <= i < n ==> s[i] == 0
  {
    seq(n, _ => 0)
  }

  lemma FeedFour(
    step: Stepper, ok: Guard, f: Flash, x0: Byte, x1: Byte, x2: Byte, x3: Byte,
    f1: Flash, f2: Flash, f3: Flash, f4: Flash)
    requires ok(f, x0) && step(f, x0) == (0, f1) && ok(f1, x1) && step(f1, x1) == (0, f2)
    requires ok(f2, x2) && step(f2, x2) == (0, f3) && ok(f3, x3) && step(f3, x3) == (0, f4)
    ensures AllAllowed(step, ok, f, [x0, x1, x2, x3]) && Feed(step, f, [x0, x1, x2, x3]) == (Zeros(4), f4)
  {
    FeedCons(step, ok, f3, x3, [], 0, f4);
    FeedCons(step, ok, f2, x2, [x3] + [], 0, f3);
    FeedCons(step, ok, f1, x1, [x2] + ([x3] + []), 0, f2);
    FeedCons(step, ok, f, x0, [x1] + ([x2] + ([x3] + [])), 0, f1);
    assert [x0] + ([x1] + ([x2] + ([x3] + []))) == [x0, x1, x2, x3];
    var z: seq<Byte> := [0];
    assert z + (z + (z + (z + []))) == Zeros(4);
  }

  /** After a read or program command and its three address bytes the chip is in the state for it, at the address. */
  lemma Addressed(p: Part, f: Flash, cmd: Byte, a2: Byte, a1: Byte, a0: Byte)
    requires Ready(p, f) && (cmd == READ || cmd == PP)
    ensures AllAllowed(Chip(p), Allowed(p), f, [cmd, a2, a1, a0])
    ensures Feed(Chip(p), f, [cmd, a2, a1, a0]).0 == Zeros(4)
    ensures AtAddress(p, f, Feed(Chip(p), f, [cmd, a2, a1, a0]).1, cmd, a2, a1, a0)
  {
    CommandStep(p, f, cmd);
    var f1 := Chip(p)(f, cmd).1;
    CollectStep(p, f1, a2);
    var f2 := Chip(p)(f1, a2).1;
    CollectStep(p, f2, a1);
    var f3 := Chip(p)(f2, a1).1;
    CompleteStep(p, f3, a0);
    FeedFour(Chip(p), Allowed(p), f, cmd, a2, a1, a0, f1, f2, f3, Chip(p)(f3, a0).1);
  }

  /** Counting on from an address goes around the array. */
  lemma NextMasked(p: Part, a: nat)
    requires IsPower(p.size) && a < p.size
    ensures And(a + 1, p.size - 1) == Next(a, p.size)
  {
    MaskIsRemainder(a + 1, p.size);
    NextMod(a, p.size);
  }

  /** How any chip answers while reading. */
  ghost predicate Reads(p: Part, step: Stepper, ok: Guard)
    requires p.size > 0
  {
    forall f: Flash, tx: Byte :: Valid(p, f) && f.regs.state == Reading ==>
      ok(f, tx) && step(f, tx) == (f.storage[f.regs.addr], f.(regs := NextAddr(p, f.regs)))
  }

  lemma ChipReads(p: Part)
    requires ValidPart(p)
    ensures Reads(p, Chip(p), Allowed(p))
  {}

  /** While reading, `n` bytes in give the `n` bytes from the address on, wrapping at the end of the array. */
  lemma {:induction false} ReadOn(p: Part, step: Stepper, ok: Guard, f: Flash, txs: seq<Byte>)
    requires Valid(p, f) && f.regs.state == Reading && Reads(p, step, ok) && IsPower(p.size)
    ensures AllAllowed(step, ok, f, txs)
    ensures Feed(step, f, txs).1 == f.(regs := f.regs.(addr := Ring(f.regs.addr, |txs|, p.size)))
    ensures forall i :: 0 <= i < |txs| ==> Feed(step, f, txs).0[i] == f.storage[Ring(f.regs.addr, i, p.size)]
    decreases txs
  {
    if txs != [] {
      var (b, g) := step(f, txs[0]);
      NextMasked(p, f.regs.addr);
      ReadOn(p, step, ok, g, txs[1..]);
      var bs := Feed(step, g, txs[1..]).0;
      forall i | 0 <= i < |txs| ensures Feed(step, f, txs).0[i] == f.storage[Ring(f.regs.addr, i, p.size)] {
        if i > 0 { assert ([b] + bs)[i] == bs[i - 1]; }
      }
    }
  }

  /** The `n` bytes stored from `a` on, wrapping at the end. */
  function StoredFrom(storage: seq<Byte>, a: nat, n: nat): (s: seq<Byte>)
    requires |storage| > 0
    ensures |s| == n
  {
    seq(n, i requires 0 <= i => storage[(a + i) % |storage|])
  }

  /** The same, going around step by step. */
  function RingFrom(storage: seq<Byte>, a: nat, n: nat): (s: seq<Byte>)
    requires a < |storage|
    ensures |s| == n && forall i :: 0 <= i < n ==> s[i] == storage[Ring(a, i, |storage|)]
  {
    seq(n, i requires 0 <= i => storage[Ring(a, i, |storage|)])
  }

  lemma RingIsStored(storage: seq<Byte>, a: nat, n: nat)
    requires a < |storage|
    ensures RingFrom(storage, a, n) == StoredFrom(storage, a, n)
  {
    forall i | 0 <= i < n ensures RingFrom(storage, a, n)[i] == StoredFrom(storage, a, n)[i] {
      RingMod(a, i, |storage|);
    }
  }

  /** What a read command answers: four zero bytes, then the storage from `a` on, wrapping at its end. */
  ghost predicate Answers(bs: seq<Byte>, storage: seq<Byte>, a: nat, n: nat)
    requires a < |storage|
  {
    bs == Zeros(4) + StoredFrom(storage, a, n)
  }

  /** A read command answers four zero bytes and then the storage from the address on, wrapping at its end. */
  lemma ReadCommand(p: Part, f: Flash, a2: Byte, a1: Byte, a0: Byte, txs: seq<Byte>)
    requires Ready(p, f)
    ensures AllAllowed(Chip(p), Allowed(p), f, [READ, a2, a1, a0] + txs)
    ensures var (bs, g) := Feed(Chip(p), f, [READ, a2, a1, a0] + txs);
            g.storage == f.storage && Answers(bs, f.storage, Address(p, f.regs.ear, a2, a1, a0), |txs|)
  {
    Addressed(p, f, READ, a2, a1, a0);
    ChipReads(p);
    AddressedThenRead(p, Chip(p), Allowed(p), f, [READ, a2, a1, a0], Address(p, f.regs.ear, a2, a1, a0), txs);
    RingIsStored(f.storage, Address(p, f.regs.ear, a2, a1, a0), |txs|);
  }

  lemma AddressedThenRead(p: Part, step: Stepper, ok: Guard, f: Flash, head: seq<Byte>, a: nat, txs: seq<Byte>)
    requires Valid(p, f) && Reads(p, step, ok) && a < p.size && IsPower(p.size)
    requires AllAllowed(step, ok, f, head) && Feed(step, f, head).0 == Zeros(|head|)
    requires var g := Feed(step, f, head).1;
             Valid(p, g) && g.storage == f.storage && g.regs.state == Reading && g.regs.addr == a
    ensures AllAllowed(step, ok, f, head + txs)
    ensures var (bs, g) := Feed(step, f, head + txs);
            g.storage == f.storage && bs == Zeros(|head|) + RingFrom(f.storage, a, |txs|)
  {
    var g := Feed(step, f, head).1;
    ReadOn(p, step, ok, g, txs);
    FeedConcat(step, ok, f, head, txs);
    var bs := Feed(step, g, txs).0;
    assert bs == RingFrom(f.storage, a, |txs|);
  }

  /** Programming an erased byte stores the byte. */
  lemma AndErased(b: Byte)
    ensures And(0xff, b) == b
  {
    assert IsPower(4);
    assert IsPower(16);
    assert IsPower(64);
    assert IsPower(256);
    MaskIsRemainder(b, 256);
    AndSymmetric(0xff, b);
  }

  /** How any chip takes a byte while programming an erased address. */
  ghost predicate Programs(p: Part, step: Stepper, ok: Guard)
    requires p.size > 0
  {
    forall f: Flash, tx: Byte :: Good(p, f) && f.regs.state == PageProgram && f.storage[f.regs.addr] == 0xff ==>
      ok(f, tx) && Good(p, step(f, tx).1) &&
      step(f, tx).1.storage == f.storage[f.regs.addr := tx] && step(f, tx).1.regs == NextAddr(p, f.regs)
  }

  lemma ChipPrograms(p: Part)
    requires ValidPart(p)
    ensures Programs(p, Chip(p), Allowed(p))
  {
    forall f: Flash, tx: Byte | Good(p, f) && f.regs.state == PageProgram && f.storage[f.regs.addr] == 0xff
      ensures Allowed(p)(f, tx) && Good(p, Chip(p)(f, tx).1)
      ensures Chip(p)(f, tx).1.storage == f.storage[f.regs.addr := tx] && Chip(p)(f, tx).1.regs == NextAddr(p, f.regs)
    {
      TransferKeeps(p, f, tx);
      WriteStorage(p, f, tx);
    }
  }

  lemma WriteStorage(p: Part, f: Flash, b: Byte)
    requires Good(p, f) && f.regs.state == PageProgram && f.storage[f.regs.addr] == 0xff
    ensures Transfer(p, f, b).1.storage == f.storage[f.regs.addr := b]
    ensures Transfer(p, f, b).1.regs == NextAddr(p, f.regs)
  {
    AndErased(b);
    var a := f.regs.addr;
    AddrPage(p, a);
    SyncKeeps(p, f.(storage := f.storage[a := if p.eeprom then b else And(f.storage[a], b)]), a / PAGE_SIZE);
  }

  /** `s` with the bytes `bs` written from address `a` on, wrapping at its end. */
  function Written(s: seq<Byte>, a: nat, bs: seq<Byte>): (r: seq<Byte>)
    requires a < |s|
    ensures |r| == |s|
    decreases bs
  {
    if bs == [] then s else Written(s[a := bs[0]], Next(a, |s|), bs[1..])
  }

  /** The storage from `a` on, wrapping, is erased for `n` bytes. */
  ghost predicate Erased(s: seq<Byte>, a: nat, n: nat)
    requires a < |s|
  {
    forall i :: 0 <= i < n ==> s[Ring(a, i, |s|)] == 0xff
  }

  /** A ring does not come back to a position before a full round. */
  lemma RingDistinct(a: nat, i: nat, n: nat)
    requires a < n && 0 < i < n
    ensures Ring(a, i, n) != a
  {
    RingOnce(a, i, n);
  }

  lemma ErasedNext(s: seq<Byte>, a: nat, n: nat, b: Byte)
    requires a < |s| && 0 < n <= |s| && Erased(s, a, n)
    ensures s[a] == 0xff && Erased(s[a := b], Next(a, |s|), n - 1)
  {
    assert s[Ring(a, 0, |s|)] == 0xff;
    forall i | 0 <= i < n - 1 ensures s[a := b][Ring(Next(a, |s|), i, |s|)] == 0xff {
      RingDistinct(a, i + 1, |s|);
      assert s[Ring(a, i + 1, |s|)] == 0xff;
    }
  }

  lemma {:induction false} WrittenElsewhere(s: seq<Byte>, a: nat, bs: seq<Byte>, c: nat)
    requires a < |s| && c < |s| && forall i :: 0 <= i < |bs| ==> Ring(a, i, |s|) != c
    ensures Written(s, a, bs)[c] == s[c]
    decreases bs
  {
    if bs != [] {
      assert Ring(a, 0, |s|) != c;
      forall i | 0 <= i < |bs| - 1 ensures Ring(Next(a, |s|), i, |s|) != c {
        assert Ring(a, i + 1, |s|) != c;
      }
      WrittenElsewhere(s[a := bs[0]], Next(a, |s|), bs[1..], c);
    }
  }

  lemma {:induction false} WrittenAt(s: seq<Byte>, a: nat, bs: seq<Byte>, i: nat)
    requires a < |s| && i < |bs| <= |s|
    ensures Written(s, a, bs)[Ring(a, i, |s|)] == bs[i]
    decreases bs
  {
    var t, next := s[a := bs[0]], Next(a, |s|);
    if i == 0 {
      forall k | 0 <= k < |bs| - 1 ensures Ring(next, k, |s|) != a {
        RingDistinct(a, k + 1, |s|);
      }
      WrittenElsewhere(t, next, bs[1..], a);
    } else {
      WrittenAt(t, next, bs[1..], i - 1);
    }
  }

  /** While programming an erased stretch, the bytes sent are stored one after the other and nothing else changes. */
  lemma {:induction false} ProgramOn(p: Part, step: Stepper, ok: Guard, f: Flash, txs: seq<Byte>)
    requires Good(p, f) && f.regs.state == PageProgram && Programs(p, step, ok) && IsPower(p.size)
    requires |txs| <= p.size && Erased(f.storage, f.regs.addr, |txs|)
    ensures AllAllowed(step, ok, f, txs)
    ensures var g := Feed(step, f, txs).1;
            Good(p, g) && g.storage == Written(f.storage, f.regs.addr, txs) && g.regs == f.regs.(addr := g.regs.addr)
    decreases txs
  {
    if txs != [] {
      ErasedNext(f.storage, f.regs.addr, |txs|, txs[0]);
      NextMasked(p, f.regs.addr);
      ProgramOn(p, step, ok, step(f, txs[0]).1, txs[1..]);
    }
  }

  lemma SelectKeepsStorage(p: Part, f: Flash)
    requires Valid(p, f) && f.regs.state == PageProgram
    ensures Fits(p, SelectArea(p, f.regs))
    ensures var g := Select(p, f);
            g.storage == f.storage && g.regs.ear == f.regs.ear && g.regs.fourByte == f.regs.fourByte
  {}

  /** Programming an erased stretch stores the bytes sent. */
  lemma ProgramCommand(p: Part, f: Flash, a2: Byte, a1: Byte, a0: Byte, bytes: seq<Byte>)
    requires Good(p, f) && Ready(p, f) && |bytes| <= p.size
    requires Erased(f.storage, Address(p, f.regs.ear, a2, a1, a0), |bytes|)
    ensures AllAllowed(Chip(p), Allowed(p), f, [PP, a2, a1, a0] + bytes)
    ensures var g := Feed(Chip(p), f, [PP, a2, a1, a0] + bytes).1;
            Good(p, g) && g.storage == Written(f.storage, Address(p, f.regs.ear, a2, a1, a0), bytes) &&
            g.regs.state == PageProgram && g.regs.ear == f.regs.ear && !g.regs.fourByte
  {
    Addressed(p, f, PP, a2, a1, a0);
    ChipPrograms(p);
    AddressedThenProgram(p, Chip(p), Allowed(p), f, [PP, a2, a1, a0], Address(p, f.regs.ear, a2, a1, a0), bytes);
  }

  lemma AddressedThenProgram(p: Part, step: Stepper, ok: Guard, f: Flash, head: seq<Byte>, a: nat, bytes: seq<Byte>)
    requires Good(p, f) && Programs(p, step, ok) && IsPower(p.size)
    requires |bytes| <= p.size && a < p.size && Erased(f.storage, a, |bytes|)
    requires AllAllowed(step, ok, f, head)
    requires var g := Feed(step, f, head).1;
             Good(p, g) && g.storage == f.storage && g.regs.state == PageProgram && g.regs.addr == a
    ensures AllAllowed(step, ok, f, head + bytes)
    ensures var g, h := Feed(step, f, head + bytes).1, Feed(step, f, head).1;
            Good(p, g) && g.storage == Written(f.storage, a, bytes) && g.regs == h.regs.(addr := g.regs.addr)
  {
    var g := Feed(step, f, head).1;
    ProgramOn(p, step, ok, g, bytes);
    FeedConcat(step, ok, f, head, bytes);
  }

  /** Programming an erased stretch, selecting the chip and reading the stretch gives back what was programmed, and by
      then it is in the backing file. */
  lemma ProgramThenRead(p: Part, f: Flash, a2: Byte, a1: Byte, a0: Byte, bytes: seq<Byte>, txs: seq<Byte>)
    requires Good(p, f) && Ready(p, f) && |bytes| == |txs| <= p.size
    requires Erased(f.storage, Address(p, f.regs.ear, a2, a1, a0), |bytes|)
    ensures var g := Feed(Chip(p), f, [PP, a2, a1, a0] + bytes).1;
            Valid(p, g) && Fits(p, SelectArea(p, g.regs)) && Select(p, g).file == Select(p, g).storage &&
            Feed(Chip(p), Select(p, g), [READ, a2, a1, a0] + txs).0 == Zeros(4) + bytes
  {
    ProgramCommand(p, f, a2, a1, a0, bytes);
    ReadAfterSelect(p, f.storage, f.regs.ear, Feed(Chip(p), f, [PP, a2, a1, a0] + bytes).1, a2, a1, a0, bytes, txs);
  }

  lemma ReadAfterSelect(
    p: Part, s: seq<Byte>, ear: Byte, g: Flash, a2: Byte, a1: Byte, a0: Byte, bytes: seq<Byte>, txs: seq<Byte>)
    requires Good(p, g) && IsPower(p.size) && !p.eepromOnly && |s| == p.size && |bytes| == |txs| <= p.size
    requires g.regs.state == PageProgram && !g.regs.fourByte && g.regs.ear == ear
    requires g.storage == Written(s, Address(p, ear, a2, a1, a0), bytes)
    ensures Fits(p, SelectArea(p, g.regs)) && Select(p, g).file == Select(p, g).storage
    ensures Feed(Chip(p), Select(p, g), [READ, a2, a1, a0] + txs).0 == Zeros(4) + bytes
  {
    SelectKeepsStorage(p, g);
    SelectSyncs(p, g);
    ReadCommand(p, Select(p, g), a2, a1, a0, txs);
    ReadBack(s, Address(p, ear, a2, a1, a0), bytes, Feed(Chip(p), Select(p, g), [READ, a2, a1, a0] + txs).0);
  }

  lemma ReadBack(s: seq<Byte>, a: nat, bytes: seq<Byte>, bs: seq<Byte>)
    requires a < |s| && |bytes| <= |s| && Answers(bs, Written(s, a, bytes), a, |bytes|)
    ensures bs == Zeros(4) + bytes
  {
    var t := Written(s, a, bytes);
    RingIsStored(t, a, |bytes|);
    forall i | 0 <= i < |bytes| ensures RingFrom(t, a, |bytes|)[i] == bytes[i] {
      WrittenAt(s, a, bytes, i);
    }
    assert RingFrom(t, a, |bytes|) == bytes;
  }
}
