/** What further commands of the flash do to its storage and what they answer (src/dev/flash.c). */
module FlashCommands {
  import opened Bitwise
  import opened FlashChip
  import opened FlashRuns
  import opened FlashAddressing

  // ---------------------------------------------------------------------------------------------------------------
  // Erasing everything

  /** A bulk erase clears everything, if writing is enabled. */
  lemma BulkErase(p: Part, f: Flash, cmd: Byte)
    requires Idling(p, f) && (cmd == 0x60 || cmd == 0xc7)
    ensures Allowed(p)(f, cmd) && Chip(p)(f, cmd).0 == 0
    ensures var g := Chip(p)(f, cmd).1;
            if f.regs.writeEnable then Cleared(f.storage, g.storage, 0, p.size) else g.storage == f.storage
  {
    BulkRegisters(p, f.regs, cmd);
    ErasedArea(p, f.(regs := Decode(p, f.regs, cmd)), 0, p.size);
  }

  lemma BulkRegisters(p: Part, r: Regs, cmd: Byte)
    requires ValidPart(p) && |r.data| == BUFFER && (cmd == 0x60 || cmd == 0xc7)
    ensures Decode(p, r, cmd) == r.(cmd := cmd, resetEnable := false)
  {}

  // ---------------------------------------------------------------------------------------------------------------
  // Programming a byte that is not erased

  /** Programming clears the bits that are zero in the byte sent and leaves the others; an EEPROM takes the byte.
      Nothing else in the storage changes. */
  lemma ProgramByte(p: Part, f: Flash, b: Byte, i: nat)
    requires Valid(p, f) && f.regs.state == PageProgram
    ensures Allowed(p)(f, b)
    ensures var g, a := Chip(p)(f, b).1, f.regs.addr;
            && |g.storage| == p.size && g.storage == f.storage[a := g.storage[a]]
            && (p.eeprom ==> g.storage[a] == b)
            && (!p.eeprom ==> (HasBit(g.storage[a], i) <==> HasBit(f.storage[a], i) && HasBit(b, i)))
  {
    AndBit(f.storage[f.regs.addr], b, i);
    ProgramStorage(p, f, b);
  }

  lemma ProgramStorage(p: Part, f: Flash, b: Byte)
    requires Valid(p, f) && f.regs.state == PageProgram
    ensures Allowed(p)(f, b)
    ensures var a := f.regs.addr;
            Chip(p)(f, b).1.storage == f.storage[a := if p.eeprom then b else And(f.storage[a], b)]
  {}

  lemma {:induction false} AndBit(a: nat, b: nat, i: nat)
    ensures HasBit(And(a, b), i) <==> HasBit(a, i) && HasBit(b, i)
    decreases i
  {
    if a == 0 || b == 0 {
      NoBits(i);
    } else if i > 0 {
      assert And(a, b) / 2 == And(a / 2, b / 2);
      AndBit(a / 2, b / 2, i - 1);
    }
  }

  // ---------------------------------------------------------------------------------------------------------------
  // Write enable and status

  /** Reading the status register: the byte answered after the command has bit 1 set exactly when writing is enabled. */
  lemma StatusRead(p: Part, f: Flash, tx: Byte)
    requires Idling(p, f)
    ensures AllAllowed(Chip(p), Allowed(p), f, [RDSR, tx])
    ensures var bs := Feed(Chip(p), f, [RDSR, tx]).0;
            bs[0] == 0 && (HasBit(bs[1], 1) <==> f.regs.writeEnable)
  {
    var (b, g) := Chip(p)(f, RDSR);
    StatusSent(p, f, tx);
    FeedTwo(p, f, RDSR, tx);
  }

  lemma StatusSent(p: Part, f: Flash, tx: Byte)
    requires Idling(p, f)
    ensures Allowed(p)(f, RDSR) && Chip(p)(f, RDSR).0 == 0
    ensures var g := Chip(p)(f, RDSR).1;
            Allowed(p)(g, tx) && (HasBit(Chip(p)(g, tx).0, 1) <==> f.regs.writeEnable)
  {
    var v: nat := AnswerBytes(p, f.regs, RDSR)[0];
    assert HasBit(v, 1) == HasBit(v / 2, 0);
    StatusCommand(p, f);
    var g := Chip(p)(f, RDSR).1;
    assert g.regs.data[0] == v;
    BufferStep(p, g, tx);
  }

  lemma StatusCommand(p: Part, f: Flash)
    requires Idling(p, f)
    ensures var r := f.regs.(cmd := RDSR, resetEnable := false);
            && Allowed(p)(f, RDSR)
            && Chip(p)(f, RDSR) == (0, f.(regs := Answer(r, AnswerBytes(p, f.regs, RDSR), true)))
  {}

  lemma BufferStep(p: Part, f: Flash, tx: Byte)
    requires Valid(p, f) && f.regs.state == ReadingData && f.regs.pos < BUFFER
    ensures Allowed(p)(f, tx) && Chip(p)(f, tx).0 == f.regs.data[f.regs.pos]
  {}

  lemma FeedTwo(p: Part, f: Flash, x: Byte, y: Byte)
    requires Allowed(p)(f, x) && Allowed(p)(Chip(p)(f, x).1, y)
    ensures AllAllowed(Chip(p), Allowed(p), f, [x, y])
    ensures Feed(Chip(p), f, [x, y]).0 == [Chip(p)(f, x).0, Chip(p)(Chip(p)(f, x).1, y).0]
  {
    var g := Chip(p)(f, x).1;
    FeedCons(Chip(p), Allowed(p), g, y, [], Chip(p)(g, y).0, Chip(p)(g, y).1);
    FeedCons(Chip(p), Allowed(p), f, x, [y] + [], Chip(p)(f, x).0, g);
    assert [x] + ([y] + []) == [x, y];
  }

  /** A write enable or disable command is what a status read reports next. */
  lemma EnableThenStatus(p: Part, f: Flash, cmd: Byte, tx: Byte)
    requires Idling(p, f) && (cmd == WREN || cmd == WRDI)
    ensures var g := Chip(p)(f, cmd).1;
            Idling(p, g) && (HasBit(Feed(Chip(p), g, [RDSR, tx]).0[1], 1) <==> cmd == WREN)
  {
    EnableStep(p, f, cmd);
    StatusRead(p, Chip(p)(f, cmd).1, tx);
  }

  /** Write enable, then an erase: the bytes are cleared. */
  lemma EnableThenErase(p: Part, f: Flash, cmd: Byte, addr: seq<Byte>)
    requires Waiting(p, f) && cmd in {0x20, 0x21, 0x52, 0x5c, 0xd8, 0xdc} && |addr| == AddressBytes(p, f.regs, cmd)
    requires Place(p, f.regs, addr) + EraseLength(p, cmd) <= p.size
    ensures var g, a := Chip(p)(f, WREN).1, Place(p, f.regs, addr);
            Cleared(f.storage, Feed(Chip(p), g, [cmd] + addr).1.storage, a, a + EraseLength(p, cmd))
  {
    EnableStep(p, f, WREN);
    EraseAnywhere(p, Chip(p)(f, WREN).1, cmd, addr);
  }

  // ---------------------------------------------------------------------------------------------------------------
  // Identification

  const READ_JEDEC: nat := 0x9f

  /** A chip that answers from its buffer and then goes idle. */
  ghost predicate Answering(p: Part, f: Flash, bytes: seq<Byte>) {
    && Valid(p, f) && f.regs.state == ReadingData && 0 < |bytes|
    && f.regs.pos + |bytes| == f.regs.len <= BUFFER
    && f.regs.data[f.regs.pos..f.regs.len] == bytes
  }

  lemma AnswerStep(p: Part, f: Flash, bytes: seq<Byte>, tx: Byte)
    requires Answering(p, f, bytes)
    ensures Allowed(p)(f, tx) && Chip(p)(f, tx).0 == bytes[0]
    ensures |bytes| > 1 ==> Answering(p, Chip(p)(f, tx).1, bytes[1..])
  {
    assert f.regs.data[f.regs.pos] == bytes[0];
    assert f.regs.data[f.regs.pos + 1..f.regs.len] == bytes[1..];
  }

  lemma {:induction false} AnswerAll(p: Part, f: Flash, bytes: seq<Byte>, txs: seq<Byte>)
    requires Answering(p, f, bytes) && |txs| == |bytes|
    ensures AllAllowed(Chip(p), Allowed(p), f, txs) && Feed(Chip(p), f, txs).0 == bytes
    decreases txs
  {
    AnswerStep(p, f, bytes, txs[0]);
    var (b, g) := Chip(p)(f, txs[0]);
    assert txs == [txs[0]] + txs[1..] && bytes == [bytes[0]] + bytes[1..];
    if |bytes| > 1 {
      AnswerAll(p, g, bytes[1..], txs[1..]);
    } else {
      assert txs[1..] == [] && bytes[1..] == [];
    }
    FeedCons(Chip(p), Allowed(p), f, txs[0], txs[1..], b, g);
  }

  lemma IdentifyStep(p: Part, f: Flash)
    requires Idling(p, f) && p.idLen > 0
    ensures Allowed(p)(f, READ_JEDEC) && Chip(p)(f, READ_JEDEC).0 == 0
    ensures Answering(p, Chip(p)(f, READ_JEDEC).1, p.id[..p.idLen])
  {
    var g := Chip(p)(f, READ_JEDEC).1;
    assert g.regs.data[..p.idLen] == p.id[..p.idLen];
  }

  /** The identification command answers the part's identification bytes, in order. */
  lemma Identify(p: Part, f: Flash, txs: seq<Byte>)
    requires Idling(p, f) && p.idLen > 0 && |txs| == p.idLen
    ensures AllAllowed(Chip(p), Allowed(p), f, [READ_JEDEC] + txs)
    ensures Feed(Chip(p), f, [READ_JEDEC] + txs).0 == [0] + p.id[..p.idLen]
  {
    IdentifyStep(p, f);
    var g := Chip(p)(f, READ_JEDEC).1;
    AnswerAll(p, g, p.id[..p.idLen], txs);
    FeedCons(Chip(p), Allowed(p), f, READ_JEDEC, txs, 0, g);
  }

  // ---------------------------------------------------------------------------------------------------------------
  // Reset

  const RESET_ENABLE: nat := 0x66
  const RESET: nat := 0x99

  lemma ResetEnabled(p: Part, f: Flash)
    requires Idling(p, f)
    ensures Allowed(p)(f, RESET_ENABLE)
    ensures Chip(p)(f, RESET_ENABLE) == (0, f.(regs := f.regs.(cmd := RESET_ENABLE, resetEnable := true)))
  {}

  lemma ResetStep(p: Part, f: Flash)
    requires Idling(p, f)
    ensures Allowed(p)(f, RESET)
    ensures var r := f.regs.(cmd := RESET);
            Chip(p)(f, RESET) == (0, f.(regs := if f.regs.resetEnable then ResetMemory(p, r) else r))
  {}

  /** Reset enable and reset: writing is disabled, and addresses have three bytes without extension, except that Numonyx
      chips go to what their non-volatile configuration says: bit 0 clear for four-byte addresses, bit 1 clear to extend
      by the last segment, bits 12 to 15 for the dummy bytes. The storage is kept. */
  lemma ResetPair(p: Part, f: Flash)
    requires Idling(p, f)
    ensures var g := Chip(p)(Chip(p)(f, RESET_ENABLE).1, RESET).1;
            && Idling(p, g) && g.storage == f.storage && !g.regs.writeEnable && !g.regs.resetEnable
            && (p.id[0] != 0x20 ==> !g.regs.fourByte && g.regs.ear == 0)
            && (p.id[0] == 0x20 ==>
                  && (g.regs.fourByte <==> !HasBit(f.regs.nvcfg, 0))
                  && (HasBit(f.regs.nvcfg, 1) ==> g.regs.ear == 0)
                  && (!HasBit(f.regs.nvcfg, 1) && MAX_3BYTES <= p.size <= 256 * MAX_3BYTES ==>
                        g.regs.ear == p.size / MAX_3BYTES - 1)
                  && Dummies(p, g.regs, 0x0b) == f.regs.nvcfg / 4096 % 16)
  {
    ResetEnabled(p, f);
    var g := Chip(p)(f, RESET_ENABLE).1;
    ResetStep(p, g);
    if p.id[0] == 0x20 { NumonyxReset(p, g.regs.(cmd := RESET)); }
  }

  lemma NumonyxReset(p: Part, r: Regs)
    requires ValidPart(p) && p.id[0] == 0x20
    ensures ResetMemory(p, r).vcfg / 16 % 16 == r.nvcfg / 4096 % 16
    ensures ResetMemory(p, r).fourByte <==> !HasBit(r.nvcfg, 0)
    ensures HasBit(r.nvcfg, 1) ==> ResetMemory(p, r).ear == 0
    ensures !HasBit(r.nvcfg, 1) && MAX_3BYTES <= p.size <= 256 * MAX_3BYTES ==>
              ResetMemory(p, r).ear == p.size / MAX_3BYTES - 1
  {
    assert HasBit(r.nvcfg, 1) == HasBit(r.nvcfg / 2, 0);
    var low := 3 + (if r.nvcfg / 512 % 8 != 7 then 8 else 0);
    var n := r.nvcfg / 4096 % 16;
    assert ResetMemory(p, r).vcfg == low + 16 * n && low < 16;
    assert (low + 16 * n) / 16 == n;
  }

  /** A reset without a reset enable directly before it does nothing. */
  lemma ResetNeedsEnable(p: Part, f: Flash, cmd: Byte)
    requires Idling(p, f) && cmd != RESET_ENABLE && Allowed(p)(f, cmd)
    ensures var g := Chip(p)(f, cmd).1;
            && !g.regs.resetEnable
            && (Idling(p, g) ==> Chip(p)(g, RESET) == (0, g.(regs := g.regs.(cmd := RESET))))
  {
    var g := Chip(p)(f, cmd).1;
    if IsBulk(cmd) { BulkRegisters(p, f.regs, cmd); } else { NotEnabled(p, f.regs, cmd); }
    if Idling(p, g) { ResetStep(p, g); }
  }

  lemma NotEnabled(p: Part, r: Regs, cmd: Byte)
    requires ValidPart(p) && |r.data| == BUFFER && cmd != RESET_ENABLE
    ensures !Decode(p, r, cmd).resetEnable
  {
    var before := r.(cmd := cmd, resetEnable := cmd == RESET && r.resetEnable);
    if IsCollecting(cmd) {
      assert cmd != RESET;
      CollectingKeeps(p, before, cmd);
    } else if !IsAnswering(cmd) {
      SwitchDisables(p, before, cmd);
    }
  }

  lemma CollectingKeeps(p: Part, r: Regs, cmd: Byte)
    requires ValidPart(p) && |r.data| == BUFFER
    ensures DecodeCollecting(p, r, cmd).resetEnable == r.resetEnable
  {}

  lemma SwitchDisables(p: Part, r: Regs, cmd: Byte)
    requires ValidPart(p) && |r.data| == BUFFER && cmd != RESET_ENABLE && (r.resetEnable ==> cmd == RESET)
    ensures !DecodeSwitch(p, r, cmd).resetEnable
  {}
}
