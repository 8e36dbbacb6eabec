/** Commands of the flash with an address, in every address mode: two, three or four address bytes, the extended address
    register, and dummy bytes (src/dev/flash.c). */
module FlashAddressing {
  import opened Bitwise
  import opened FlashChip
  import opened FlashRuns

  /** The number that bytes denote, most significant first. */
  function Number(bs: seq<Byte>): nat {
    if bs == [] then 0 else var low: nat := bs[|bs| - 1]; 256 * Number(bs[..|bs| - 1]) + low
  }

  lemma {:induction false} LeadingZero(bs: seq<Byte>)
    ensures Number([0] + bs) == Number(bs)
  {
    var zero: seq<Byte> := [0];
    if bs == [] {
      assert zero + bs == zero && zero[..0] == [];
    } else {
      var n := |bs| - 1;
      LeadingZero(bs[..n]);
      assert (zero + bs)[..n + 1] == zero + bs[..n];
    }
  }

  lemma {:induction false} Assembled(start: Byte, data: seq<Byte>, n: nat)
    requires n <= |data|
    ensures Assemble(start, data, n) == Number([start] + data[..n])
  {
    var s := [start] + data[..n];
    if n == 0 {
      assert s == [start] && s[..0] == [];
    } else {
      Assembled(start, data, n - 1);
      assert s[..n] == [start] + data[..n - 1];
    }
  }

  /** A chip waiting for a command. */
  ghost predicate Idling(p: Part, f: Flash) {
    Valid(p, f) && f.regs.state == Idle
  }

  /** The same, in any address mode, with a size that is a power of two, as addresses are masked. */
  ghost predicate Waiting(p: Part, f: Flash) {
    Idling(p, f) && IsPower(p.size)
  }

  /** How many address bytes a command takes: two on an EEPROM, four in four-byte mode and for the commands that exist
      for this, and three otherwise. */
  function AddressBytes(p: Part, r: Regs, cmd: Byte): nat {
    if p.eepromOnly then 2
    else if r.fourByte || cmd in {0x0c, 0x12, 0x13, 0x21, 0x34, 0x3c, 0x3e, 0x5c, 0x6c, 0xbc, 0xdc, 0xec} then 4
    else 3
  }

  /** The place in the storage that address bytes denote: three are extended by the register for this. */
  function Place(p: Part, r: Regs, addr: seq<Byte>): (a: nat)
    requires p.size > 0
    ensures a < p.size
  {
    Number(if |addr| == 3 then [r.ear] + addr else addr) % p.size
  }

  lemma PlaceCollected(p: Part, r: Regs, addr: seq<Byte>)
    requires ValidPart(p) && IsPower(p.size) && |r.data| == BUFFER && 0 <= r.cmd < 256
    requires |addr| == AddressBytes(p, r, r.cmd) && addr <= r.data
    ensures CollectedAddress(p, r) == Place(p, r, addr)
  {
    var n := |addr|;
    assert AddrLength(p, r) == n && r.data[..n] == addr;
    var start: Byte := if n == 3 then r.ear else 0;
    Assembled(start, r.data, n);
    LeadingZero(addr);
    MaskIsRemainder(Assemble(start, r.data, n), p.size);
  }

  // ---------------------------------------------------------------------------------------------------------------
  // Collecting

  /** The registers with collected bytes. */
  function WithBytes(r: Regs, bs: seq<Byte>): (c: Regs)
    requires |r.data| == BUFFER && r.len + |bs| <= BUFFER
    ensures |c.data| == BUFFER
  {
    r.(data := r.data[..r.len] + bs + r.data[r.len + |bs|..], len := r.len + |bs|)
  }

  lemma WithOne(r: Regs, b: Byte, bs: seq<Byte>)
    requires |r.data| == BUFFER && r.len + 1 + |bs| <= BUFFER
    ensures var c := r.(data := r.data[r.len := b], len := r.len + 1);
            WithBytes(c, bs) == WithBytes(r, [b] + bs) && (bs == [] ==> WithBytes(c, bs) == c)
  {
    var c := r.(data := r.data[r.len := b], len := r.len + 1);
    assert WithBytes(c, bs).data == WithBytes(r, [b] + bs).data;
    assert bs == [] ==> WithBytes(c, bs).data == c.data;
  }

  /** A byte answered with zero in front of others. */
  lemma ZeroFirst(step: Stepper, ok: Guard, f: Flash, b: Byte, rest: seq<Byte>, g: Flash, h: Flash)
    requires ok(f, b) && step(f, b) == (0, g) && AllAllowed(step, ok, g, rest)
    requires Feed(step, g, rest) == (Zeros(|rest|), h)
    ensures AllAllowed(step, ok, f, [b] + rest) && Feed(step, f, [b] + rest) == (Zeros(1 + |rest|), h)
  {
    FeedCons(step, ok, f, b, rest, 0, g);
    assert [0] + Zeros(|rest|) == Zeros(1 + |rest|);
  }

  /** A byte that is not the last to be collected. */
  lemma OneCollected(p: Part, f: Flash, tx: Byte)
    requires Valid(p, f) && f.regs.state == Collecting && f.regs.len < BUFFER && f.regs.len + 1 != f.regs.needed
    ensures Allowed(p)(f, tx)
    ensures Chip(p)(f, tx) == (0, f.(regs := f.regs.(data := f.regs.data[f.regs.len := tx], len := f.regs.len + 1)))
  {}

  /** The chip when all bytes of a command are collected in `c`. */
  ghost function Finished(p: Part, f: Flash, c: Regs): Flash
    requires Valid(p, f) && |c.data| == BUFFER && Fits(p, EraseArea(p, c.cmd, CollectedAddress(p, c)))
  {
    EraseNow(p, f.(regs := Complete(p, c)), EraseArea(p, c.cmd, CollectedAddress(p, c)))
  }

  lemma LastCollected(p: Part, f: Flash, tx: Byte)
    requires Valid(p, f) && f.regs.state == Collecting && f.regs.len < BUFFER && f.regs.len + 1 == f.regs.needed
    requires var c := f.regs.(data := f.regs.data[f.regs.len := tx], len := f.regs.len + 1);
             Fits(p, EraseArea(p, c.cmd, CollectedAddress(p, c)))
    ensures var c := f.regs.(data := f.regs.data[f.regs.len := tx], len := f.regs.len + 1);
            Allowed(p)(f, tx) && Chip(p)(f, tx) == (0, Finished(p, f, c))
  {}

  /** All bytes that a command needs. */
  lemma {:induction false} AllCollected(p: Part, f: Flash, bs: seq<Byte>)
    requires Valid(p, f) && f.regs.state == Collecting && |bs| > 0 && f.regs.len + |bs| == f.regs.needed <= BUFFER
    requires var c := WithBytes(f.regs, bs); Fits(p, EraseArea(p, c.cmd, CollectedAddress(p, c)))
    ensures var c := WithBytes(f.regs, bs);
            AllAllowed(Chip(p), Allowed(p), f, bs) && Feed(Chip(p), f, bs) == (Zeros(|bs|), Finished(p, f, c))
    decreases bs
  {
    var rest := bs[1..];
    assert bs == [bs[0]] + rest;
    WithOne(f.regs, bs[0], rest);
    var c := WithBytes(f.regs, bs);
    if rest == [] {
      LastCollected(p, f, bs[0]);
      ZeroFirst(Chip(p), Allowed(p), f, bs[0], rest, Finished(p, f, c), Finished(p, f, c));
    } else {
      OneCollected(p, f, bs[0]);
      var g := Chip(p)(f, bs[0]).1;
      AllCollected(p, g, rest);
      ZeroFirst(Chip(p), Allowed(p), f, bs[0], rest, g, Finished(p, g, c));
    }
  }

  /** The dummy bytes of a read command by the maker's code: none for plain reads; Numonyx chips are configured for a
      number, Macronix chips for one of several; Winbond and Spansion chips have fixed ones, other chips none. */
  function Dummies(p: Part, r: Regs, cmd: Byte): nat
    requires |p.id| == 6
  {
    var setting := r.vcfg / 64 % 4;
    if cmd in {0x03, 0x13} || !IsRead(cmd) then 0
    else if p.id[0] == 0x20 then r.vcfg / 16 % 16
    else if p.id[0] == 0xEF then if cmd in {0xbb, 0xbc} then 1 else if cmd in {0xeb, 0xec} then 5 else 8
    else if p.id[0] == 0x01 then if cmd in {0xbb, 0xbc, 0xeb, 0xec} then 1 else 0
    else if p.id[0] == 0xC2 then
      if cmd in {0xbb, 0xbc} then if setting == 1 then 6 else if setting == 2 then 8 else 4
      else if cmd in {0xeb, 0xec} then if setting == 1 then 4 else if setting == 2 then 8 else 6
      else if setting == 1 then 6 else 8
    else 0
  }

  predicate TakesAddress(cmd: Byte) {
    IsRead(cmd) || IsProgram(cmd) || IsErase(cmd)
  }

  lemma CommandTaken(p: Part, f: Flash, cmd: Byte)
    requires Waiting(p, f) && TakesAddress(cmd)
    ensures var needed := AddressBytes(p, f.regs, cmd) + Dummies(p, f.regs, cmd);
            && Allowed(p)(f, cmd)
            && Chip(p)(f, cmd) == (0, f.(regs := Collect(f.regs.(cmd := cmd, resetEnable := false), needed)))
  {
    var r := f.regs.(cmd := cmd, resetEnable := false);
    CollectsAddress(p, r);
    NotBulk(cmd);
    assert Decode(p, f.regs, cmd) == DecodeCollecting(p, r, cmd);
  }

  lemma CollectsAddress(p: Part, r: Regs)
    requires ValidPart(p) && |r.data| == BUFFER && 0 <= r.cmd < 256 && TakesAddress(r.cmd)
    ensures DecodeCollecting(p, r, r.cmd) == Collect(r, AddressBytes(p, r, r.cmd) + Dummies(p, r, r.cmd))
  {
    var cmd: Byte := r.cmd;
    assert AddrLength(p, r) == AddressBytes(p, r, cmd);
    if IsFastRead(cmd) {
      FastTable(p, r, cmd);
    } else if IsDualRead(cmd) {
      DualTable(p, r, cmd);
    } else if IsQuadRead(cmd) {
      QuadTable(p, r, cmd);
    }
  }

  lemma FastTable(p: Part, r: Regs, cmd: Byte)
    requires |p.id| == 6 && IsFastRead(cmd)
    ensures Dummies(p, r, cmd) == FastDummies(p, r)
  {
    assert cmd !in {0x03, 0x13} && cmd !in {0xbb, 0xbc, 0xeb, 0xec};
  }

  lemma DualTable(p: Part, r: Regs, cmd: Byte)
    requires |p.id| == 6 && IsDualRead(cmd)
    ensures Dummies(p, r, cmd) == DualDummies(p, r)
  {}

  lemma QuadTable(p: Part, r: Regs, cmd: Byte)
    requires |p.id| == 6 && IsQuadRead(cmd)
    ensures Dummies(p, r, cmd) == QuadDummies(p, r)
  {}

  lemma NotBulk(cmd: Byte)
    requires TakesAddress(cmd)
    ensures !IsBulk(cmd) && cmd != 0x99 && IsCollecting(cmd)
  {}

  /** The registers after a command with its address and dummy bytes. */
  ghost predicate Arrived(p: Part, r: Regs, cmd: Byte, addr: seq<Byte>, c: Regs)
    requires p.size > 0
  {
    && |c.data| == BUFFER && c.addr == Place(p, r, addr)
    && c.ear == r.ear && c.fourByte == r.fourByte && c.writeEnable == r.writeEnable
    && c.state == if IsRead(cmd) then Reading else if IsProgram(cmd) then PageProgram else Idle
  }

  /** A command with its address and dummy bytes is answered with zeros, and leads to the place that the address bytes
      denote. */
  lemma Arrives(p: Part, f: Flash, cmd: Byte, addr: seq<Byte>, dummies: seq<Byte>) returns (c: Regs)
    requires Waiting(p, f) && TakesAddress(cmd)
    requires |addr| == AddressBytes(p, f.regs, cmd) && |dummies| == Dummies(p, f.regs, cmd)
    requires |addr| + |dummies| <= BUFFER && Fits(p, EraseArea(p, cmd, Place(p, f.regs, addr)))
    ensures Arrived(p, f.regs, cmd, addr, c) && AllAllowed(Chip(p), Allowed(p), f, [cmd] + (addr + dummies))
    ensures Feed(Chip(p), f, [cmd] + (addr + dummies)) ==
            (Zeros(1 + |addr| + |dummies|),
             EraseNow(p, f.(regs := c), EraseArea(p, cmd, Place(p, f.regs, addr))))
  {
    var bs := addr + dummies;
    CommandTaken(p, f, cmd);
    var g := Chip(p)(f, cmd).1;
    c := Completes(p, f, g, cmd, addr, dummies);
    ZeroFirst(Chip(p), Allowed(p), f, cmd, bs, g, Feed(Chip(p), g, bs).1);
  }

  lemma Completes(p: Part, f: Flash, g: Flash, cmd: Byte, addr: seq<Byte>, dummies: seq<Byte>) returns (c: Regs)
    requires Valid(p, f) && Valid(p, g) && IsPower(p.size) && TakesAddress(cmd)
    requires |addr| == AddressBytes(p, f.regs, cmd) && |addr| + |dummies| <= BUFFER
    requires g == f.(regs := Collect(f.regs.(cmd := cmd, resetEnable := false), |addr| + |dummies|))
    requires Fits(p, EraseArea(p, cmd, Place(p, f.regs, addr)))
    ensures Arrived(p, f.regs, cmd, addr, c) && AllAllowed(Chip(p), Allowed(p), g, addr + dummies)
    ensures Feed(Chip(p), g, addr + dummies) ==
            (Zeros(|addr| + |dummies|), EraseNow(p, f.(regs := c), EraseArea(p, cmd, Place(p, f.regs, addr))))
  {
    var d := WithBytes(g.regs, addr + dummies);
    CollectedPlace(p, f.regs, d, cmd, addr, dummies);
    AllCollected(p, g, addr + dummies);
    c := Complete(p, d);
    CompletedFor(p, d, cmd);
    assert g.(regs := c) == f.(regs := c);
  }

  lemma CollectedPlace(p: Part, r: Regs, d: Regs, cmd: Byte, addr: seq<Byte>, dummies: seq<Byte>)
    requires ValidPart(p) && IsPower(p.size) && |r.data| == BUFFER && |addr| + |dummies| <= BUFFER
    requires |addr| == AddressBytes(p, r, cmd)
    requires var c := Collect(r.(cmd := cmd, resetEnable := false), |addr| + |dummies|);
             d == WithBytes(c, addr + dummies)
    ensures CollectedAddress(p, d) == Place(p, r, addr)
  {
    assert addr <= d.data;
    PlaceCollected(p, d, addr);
  }

  lemma CompletedFor(p: Part, d: Regs, cmd: Byte)
    requires ValidPart(p) && |d.data| == BUFFER && d.cmd == cmd && TakesAddress(cmd)
    ensures var c := Complete(p, d);
            && |c.data| == BUFFER && c.addr == CollectedAddress(p, d)
            && c.ear == d.ear && c.fourByte == d.fourByte && c.writeEnable == d.writeEnable
            && c.state == if IsRead(cmd) then Reading else if IsProgram(cmd) then PageProgram else Idle
  {
    NoRegisterWrite(cmd);
    var state := if IsProgram(cmd) then PageProgram else if IsRead(cmd) then Reading else Idle;
    assert Complete(p, d) == d.(addr := CollectedAddress(p, d), state := state);
  }

  lemma NoRegisterWrite(cmd: Byte)
    requires TakesAddress(cmd)
    ensures cmd != WRSR && !IsExtendWrite(cmd) && cmd != 0xB1 && cmd != 0x81 && cmd != 0x61 && !IsReadId(cmd)
    ensures !(IsProgram(cmd) && IsRead(cmd))
  {}

  // ---------------------------------------------------------------------------------------------------------------
  // Reading, programming and erasing in any mode

  predicate ReadOpcode(cmd: Byte) {
    cmd in {0x03, 0x0b, 0x0c, 0x13, 0x3b, 0x3c, 0x6b, 0x6c, 0xbb, 0xbc, 0xeb, 0xec}
  }

  predicate ProgramOpcode(cmd: Byte) {
    cmd in {0x02, 0x12, 0x32, 0x34, 0x3e, 0xa2}
  }

  lemma Opcodes(cmd: Byte)
    ensures ReadOpcode(cmd) <==> IsRead(cmd)
    ensures ProgramOpcode(cmd) <==> IsProgram(cmd)
  {}

  /** Every read command, in every address mode: after command, address and dummy bytes the storage is answered, from
      the place on and around its end. */
  lemma ReadAnywhere(p: Part, f: Flash, cmd: Byte, addr: seq<Byte>, dummies: seq<Byte>, txs: seq<Byte>)
    requires Waiting(p, f) && ReadOpcode(cmd)
    requires |addr| == AddressBytes(p, f.regs, cmd) && |dummies| == Dummies(p, f.regs, cmd)
    requires |addr| + |dummies| <= BUFFER
    ensures var all := [cmd] + (addr + dummies) + txs;
            && AllAllowed(Chip(p), Allowed(p), f, all)
            && Feed(Chip(p), f, all).1.storage == f.storage
            && Feed(Chip(p), f, all).0 ==
               Zeros(1 + |addr| + |dummies|) + StoredFrom(f.storage, Place(p, f.regs, addr), |txs|)
  {
    var a := Place(p, f.regs, addr);
    Opcodes(cmd);
    assert EraseArea(p, cmd, a) == NoArea;
    var c := Arrives(p, f, cmd, addr, dummies);
    ChipReads(p);
    AddressedThenRead(p, Chip(p), Allowed(p), f, [cmd] + (addr + dummies), a, txs);
    RingIsStored(f.storage, a, |txs|);
  }

  lemma PlainRead(p: Part, f: Flash, addr: seq<Byte>, txs: seq<Byte>)
    requires Waiting(p, f) && |addr| == AddressBytes(p, f.regs, READ)
    ensures Feed(Chip(p), f, [READ] + addr + txs).0 ==
            Zeros(1 + |addr|) + StoredFrom(f.storage, Place(p, f.regs, addr), |txs|)
  {
    ReadAnywhere(p, f, READ, addr, [], txs);
    assert addr + [] == addr;
  }

  /** Every program command: an erased stretch takes the bytes sent, and nothing else changes. */
  lemma ProgramAnywhere(p: Part, f: Flash, cmd: Byte, addr: seq<Byte>, bytes: seq<Byte>)
    requires Waiting(p, f) && Good(p, f) && ProgramOpcode(cmd) && |addr| == AddressBytes(p, f.regs, cmd)
    requires |bytes| <= p.size && Erased(f.storage, Place(p, f.regs, addr), |bytes|)
    ensures var all := [cmd] + addr + bytes;
            && AllAllowed(Chip(p), Allowed(p), f, all) && Good(p, Feed(Chip(p), f, all).1)
            && Feed(Chip(p), f, all).1.storage == Written(f.storage, Place(p, f.regs, addr), bytes)
  {
    var a := Place(p, f.regs, addr);
    Opcodes(cmd);
    assert EraseArea(p, cmd, a) == NoArea && !IsRead(cmd);
    var c := Arrives(p, f, cmd, addr, []);
    assert addr + [] == addr;
    ChipPrograms(p);
    AddressedThenProgram(p, Chip(p), Allowed(p), f, [cmd] + addr, a, bytes);
  }

  /** The storage `t` is `s` with the bytes from `lo` to `hi` cleared. */
  ghost predicate Cleared(s: seq<Byte>, t: seq<Byte>, lo: nat, hi: nat) {
    |t| == |s| && forall x :: 0 <= x < |s| ==> t[x] == if lo <= x < hi then 0xff else s[x]
  }

  lemma ErasedArea(p: Part, f: Flash, a: nat, len: nat)
    requires Valid(p, f) && a + len <= p.size
    ensures var g := EraseNow(p, f, Area(a, len));
            if f.regs.writeEnable then Cleared(f.storage, g.storage, a, a + len) else g == f
  {
    if f.regs.writeEnable {
      var g := EraseNow(p, f, Area(a, len));
      assert |g.storage| == p.size;
    }
  }

  /** The number of bytes that an erase command clears: 4 KB, 32 KB or a sector. */
  function EraseLength(p: Part, cmd: Byte): nat {
    if cmd in {0x20, 0x21} then 4096 else if cmd in {0x52, 0x5c} then 32768 else p.sectorSize
  }

  lemma EraseKinds(p: Part, r: Regs, cmd: Byte, a: nat)
    requires ValidPart(p) && cmd in {0x20, 0x21, 0x52, 0x5c, 0xd8, 0xdc}
    ensures EraseArea(p, cmd, a) == Area(a, EraseLength(p, cmd))
    ensures TakesAddress(cmd) && !IsRead(cmd) && !IsProgram(cmd) && Dummies(p, r, cmd) == 0
  {}

  /** An erase command with its address clears its bytes from the place on to 0xff and no others, if writing is enabled;
      otherwise it clears none. */
  lemma EraseAnywhere(p: Part, f: Flash, cmd: Byte, addr: seq<Byte>)
    requires Waiting(p, f) && cmd in {0x20, 0x21, 0x52, 0x5c, 0xd8, 0xdc} && |addr| == AddressBytes(p, f.regs, cmd)
    requires Place(p, f.regs, addr) + EraseLength(p, cmd) <= p.size
    ensures AllAllowed(Chip(p), Allowed(p), f, [cmd] + addr)
    ensures var (bs, g) := Feed(Chip(p), f, [cmd] + addr);
            var a := Place(p, f.regs, addr);
            && bs == Zeros(1 + |addr|) && g.regs.state == Idle
            && if f.regs.writeEnable then Cleared(f.storage, g.storage, a, a + EraseLength(p, cmd))
               else g.storage == f.storage
  {
    var a := Place(p, f.regs, addr);
    EraseKinds(p, f.regs, cmd, a);
    var c := Arrives(p, f, cmd, addr, []);
    assert addr + [] == addr;
    ErasedArea(p, f.(regs := c), a, EraseLength(p, cmd));
  }

  // ---------------------------------------------------------------------------------------------------------------
  // Dummy bytes that do not fit

  lemma {:induction false} Overfull(p: Part, f: Flash, bs: seq<Byte>)
    requires Valid(p, f) && f.regs.state == Collecting && BUFFER < f.regs.needed
    requires |bs| > 0 && f.regs.len + |bs| == BUFFER + 1
    ensures AllAllowed(Chip(p), Allowed(p), f, bs) && Feed(Chip(p), f, bs).0 == Zeros(|bs|)
    ensures var g := Feed(Chip(p), f, bs).1; g.regs.state == Idle && g.storage == f.storage && Valid(p, g)
    decreases bs
  {
    var rest := bs[1..];
    assert bs == [bs[0]] + rest;
    if rest == [] {
      assert Chip(p)(f, bs[0]) == (0, f.(regs := f.regs.(len := 0, pos := 0, state := Idle)));
    } else {
      OneCollected(p, f, bs[0]);
      Overfull(p, Chip(p)(f, bs[0]).1, rest);
    }
    var g := Chip(p)(f, bs[0]).1;
    ZeroFirst(Chip(p), Allowed(p), f, bs[0], rest, g, Feed(Chip(p), g, rest).1);
  }

  /** If address and dummy bytes do not fit the buffer, the chip gives up on the byte that does not fit, and waits for a
      command while the sender still sends dummy bytes. */
  lemma TooManyDummies(p: Part, f: Flash, cmd: Byte, bs: seq<Byte>)
    requires Waiting(p, f) && ReadOpcode(cmd) && |bs| == BUFFER + 1
    requires AddressBytes(p, f.regs, cmd) + Dummies(p, f.regs, cmd) > BUFFER
    ensures AllAllowed(Chip(p), Allowed(p), f, [cmd] + bs) && Feed(Chip(p), f, [cmd] + bs).0 == Zeros(2 + BUFFER)
    ensures var g := Feed(Chip(p), f, [cmd] + bs).1; Waiting(p, g) && g.storage == f.storage
  {
    Opcodes(cmd);
    CommandTaken(p, f, cmd);
    var g := Chip(p)(f, cmd).1;
    Overfull(p, g, bs);
    ZeroFirst(Chip(p), Allowed(p), f, cmd, bs, g, Feed(Chip(p), g, bs).1);
  }

  // ---------------------------------------------------------------------------------------------------------------
  // Changing the address mode

  const ENTER_FOUR: nat := 0xB7
  const LEAVE_FOUR: nat := 0xE9
  const WRITE_EXTENDED: nat := 0xC5

  lemma ModeStep(p: Part, f: Flash, cmd: Byte)
    requires Waiting(p, f) && (cmd == ENTER_FOUR || cmd == LEAVE_FOUR)
    ensures Allowed(p)(f, cmd)
    ensures Chip(p)(f, cmd) == (0, f.(regs := f.regs.(cmd := cmd, resetEnable := false, fourByte := cmd == ENTER_FOUR)))
  {}

  /** After the command that enters four-byte mode a plain read takes four address bytes; after the one that leaves it,
      three, below the extended address. */
  lemma ModeThenRead(p: Part, f: Flash, cmd: Byte, addr: seq<Byte>, txs: seq<Byte>)
    requires Waiting(p, f) && !p.eepromOnly && (cmd == ENTER_FOUR || cmd == LEAVE_FOUR)
    requires |addr| == if cmd == ENTER_FOUR then 4 else 3
    ensures var g := Chip(p)(f, cmd).1;
            Feed(Chip(p), g, [READ] + addr + txs).0 ==
            Zeros(1 + |addr|) +
            StoredFrom(f.storage, Number(if cmd == ENTER_FOUR then addr else [f.regs.ear] + addr) % p.size, |txs|)
  {
    ModeStep(p, f, cmd);
    PlainRead(p, Chip(p)(f, cmd).1, addr, txs);
  }

  lemma EnableStep(p: Part, f: Flash, cmd: Byte)
    requires Idling(p, f) && (cmd == WREN || cmd == WRDI)
    ensures Allowed(p)(f, cmd)
    ensures Chip(p)(f, cmd) == (0, f.(regs := f.regs.(cmd := cmd, resetEnable := false, writeEnable := cmd == WREN)))
  {}

  lemma ExtendedStep(p: Part, f: Flash)
    requires Waiting(p, f) && f.regs.writeEnable
    ensures Allowed(p)(f, WRITE_EXTENDED)
    ensures Chip(p)(f, WRITE_EXTENDED) ==
            (0, f.(regs := Collect(f.regs.(cmd := WRITE_EXTENDED, resetEnable := false), 1)))
  {}

  lemma ExtendedByte(p: Part, f: Flash, e: Byte)
    requires Valid(p, f) && f.regs.state == Collecting && f.regs.cmd == WRITE_EXTENDED
    requires f.regs.len == 0 && f.regs.needed == 1
    ensures Allowed(p)(f, e)
    ensures var g := Chip(p)(f, e).1;
            && Valid(p, g) && g.storage == f.storage && g.regs.state == Idle
            && g.regs.ear == e && g.regs.fourByte == f.regs.fourByte
  {
    assert EraseArea(p, WRITE_EXTENDED, 0) == NoArea;
    LastCollected(p, f, e);
  }

  lemma ExtendedWritten(p: Part, f: Flash, e: Byte)
    requires Waiting(p, f)
    ensures var g := Feed(Chip(p), f, [WREN, WRITE_EXTENDED, e]).1;
            Waiting(p, g) && g.storage == f.storage && g.regs.ear == e && g.regs.fourByte == f.regs.fourByte
  {
    EnableStep(p, f, WREN);
    var f1 := Chip(p)(f, WREN).1;
    ExtendedStep(p, f1);
    var f2 := Chip(p)(f1, WRITE_EXTENDED).1;
    ExtendedByte(p, f2, e);
    FeedThree(Chip(p), f, WREN, WRITE_EXTENDED, e, f1, f2, Chip(p)(f2, e).1);
  }

  lemma FeedThree(step: Stepper, f: Flash, x: Byte, y: Byte, z: Byte, f1: Flash, f2: Flash, f3: Flash)
    requires step(f, x).1 == f1 && step(f1, y).1 == f2 && step(f2, z).1 == f3
    ensures Feed(step, f, [x, y, z]).1 == f3
  {
    assert [x, y, z][1..] == [y, z] && [y, z][1..] == [z] && [z][1..] == [];
    assert Feed(step, f2, [z]).1 == f3;
    assert Feed(step, f1, [y, z]).1 == f3;
  }

  /** Write enable and a write to the extended address register: three-byte addresses are then read above it. */
  lemma ExtendedThenRead(p: Part, f: Flash, e: Byte, addr: seq<Byte>, txs: seq<Byte>)
    requires Waiting(p, f) && !p.eepromOnly && !f.regs.fourByte && |addr| == 3
    ensures var g := Feed(Chip(p), f, [WREN, WRITE_EXTENDED, e]).1;
            Feed(Chip(p), g, [READ] + addr + txs).0 ==
            Zeros(4) + StoredFrom(f.storage, Number([e] + addr) % p.size, |txs|)
  {
    ExtendedWritten(p, f, e);
    PlainRead(p, Feed(Chip(p), f, [WREN, WRITE_EXTENDED, e]).1, addr, txs);
  }
}
