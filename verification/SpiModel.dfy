/** The SPI controller as register accesses see it (src/dev/xlnx-spi.c), over any chip behind it. */
module SpiModel {
  import opened Bitwise
  import opened Modular
  import opened FlashChip
  import opened FlashRuns

  const CAPACITY: nat := 1024

  const R_DGIER: nat := 7
  const R_IPISR: nat := 8
  const R_IPIER: nat := 10
  const R_SRR: nat := 16
  const R_SPICR: nat := 24
  const R_SPISR: nat := 25
  const R_SPIDTR: nat := 26
  const R_SPIDRR: nat := 27
  const R_SPISSR: nat := 28
  const R_MAX: nat := 31

  const IRQ_DTR_EMPTY: nat := 0x04
  const IRQ_DRR_FULL: nat := 0x10
  const IRQ_DRR_OVERRUN: nat := 0x20
  const IRQ_DRR_NOT_EMPTY: nat := 0x100

  /** The bits of the status register. */
  datatype Status = Status(rxEmpty: bool, rxFull: bool, txEmpty: bool, txFull: bool, slaveMode: bool)

  function StatusWord(s: Status): nat {
    (if s.rxEmpty then 1 else 0) + (if s.rxFull then 2 else 0) +
    (if s.txEmpty then 4 else 0) + (if s.txFull then 8 else 0) +
    (if s.slaveMode then 32 else 0)
  }

  /** The controller: status register, the other registers, the two queues, the chip and the interrupt line. */
  datatype Spi = Spi(status: Status, regs: seq<nat>, tx: seq<Byte>, rx: seq<Byte>, flash: Flash, irq: bool)

  ghost predicate Shaped(s: Spi) {
    |s.regs| == R_MAX && |s.tx| <= CAPACITY && |s.rx| <= CAPACITY
  }

  predicate MasterEnabled(s: Spi)
    requires |s.regs| == R_MAX
  {
    s.regs[R_SPICR] / 256 % 2 == 0
  }

  predicate Selected(s: Spi)
    requires |s.regs| == R_MAX
  {
    s.regs[R_SPISSR] % 2 == 0
  }

  /** fifo_push on the contents of a queue: a full queue drops the byte. */
  function Pushed(q: seq<Byte>, b: Byte): seq<Byte> {
    if |q| < CAPACITY then q + [b] else q
  }

  function SetIrq(s: Spi, bits: nat): Spi
    requires |s.regs| == R_MAX
  {
    s.(regs := s.regs[R_IPISR := Or(s.regs[R_IPISR], bits)])
  }

  /** xlnx_spi_update_irq. */
  function UpdateIrq(s: Spi): (t: Spi)
    requires |s.regs| == R_MAX
    ensures t == s.(regs := t.regs, irq := t.irq) && |t.regs| == R_MAX
    ensures forall i :: 0 <= i < R_MAX && i != R_IPISR ==> t.regs[i] == s.regs[i]
  {
    var more := (if s.rx != [] then IRQ_DRR_NOT_EMPTY else 0) + (if |s.rx| == CAPACITY then IRQ_DRR_FULL else 0);
    var t := SetIrq(s, more);
    t.(irq := And(t.regs[R_IPISR], t.regs[R_IPIER]) != 0 && t.regs[R_DGIER] / 0x8000_0000 % 2 == 1)
  }

  /** The chip's answer is queued, or lost when the queue is full; the interrupt bits say which. */
  function Stored(s: Spi, answer: Byte): (t: Spi)
    requires |s.regs| == R_MAX
    ensures |t.regs| == R_MAX
  {
    if |s.rx| == CAPACITY then SetIrq(s, IRQ_DRR_OVERRUN)
    else
      var t := s.(rx := s.rx + [answer]);
      if |t.rx| == CAPACITY then SetIrq(t.(status := t.status.(rxFull := true)), IRQ_DRR_FULL) else t
  }

  /** One round of the loop of spi_flush_txfifo after the chip's answer. */
  function Answered(s: Spi, answer: Byte): (t: Spi)
    requires |s.regs| == R_MAX
    ensures |t.regs| == R_MAX && t.tx == s.tx && t.flash == s.flash
    ensures |s.rx| <= CAPACITY ==> t.rx == Pushed(s.rx, answer)
    ensures forall i :: 0 <= i < R_MAX && i != R_IPISR ==> t.regs[i] == s.regs[i]
  {
    var t := Stored(s, answer);
    var u := t.(status := t.status.(rxEmpty := false, txFull := false, txEmpty := true));
    SetIrq(SetIrq(u, IRQ_DTR_EMPTY), IRQ_DRR_NOT_EMPTY)
  }

  /** One round of the loop, for what the chip answers to the byte sent. */
  function FlushOne(s: Spi, answer: Byte, flash: Flash): (t: Spi)
    requires |s.regs| == R_MAX && s.tx != []
    ensures |t.regs| == R_MAX
  {
    Answered(s.(tx := s.tx[1..], flash := flash), answer)
  }

  /** The chip's answer to a byte; an unselected chip does not see it. */
  ghost function Exchange(step: Stepper, s: Spi, b: Byte): (Byte, Flash)
    requires |s.regs| == R_MAX
  {
    if Selected(s) then step(s.flash, b) else (0, s.flash)
  }

  /** spi_flush_txfifo. */
  ghost function Flush(step: Stepper, s: Spi): (t: Spi)
    requires |s.regs| == R_MAX
    ensures |t.regs| == R_MAX
    decreases |s.tx|
  {
    if s.tx == [] then s
    else
      var (answer, flash) := Exchange(step, s, s.tx[0]);
      Flush(step, FlushOne(s, answer, flash))
  }

  function TxReset(s: Spi): Spi {
    s.(tx := [], status := s.status.(txFull := false, txEmpty := true))
  }

  function RxReset(s: Spi): Spi {
    s.(rx := [], status := s.status.(rxFull := false, rxEmpty := true))
  }

  function ZeroRegs(): (r: seq<nat>)
    ensures |r| == R_MAX && forall i :: 0 <= i < R_MAX ==> r[i] == 0
  {
    seq(R_MAX, _ => 0)
  }

  /** xlnx_spi_do_reset, with `cs` the effect of selecting the chip. */
  ghost function Reset(cs: Flash -> Flash, s: Spi): Spi {
    var cleared := s.(regs := ZeroRegs()[R_SPICR := 0x180][R_SPISSR := 0xFFFF_FFFF], tx := [], rx := [],
                      status := Status(true, false, true, false, true));
    var t := UpdateIrq(cleared);
    t.(flash := cs(t.flash))
  }

  /** fifo_pop of the receive queue with the status bits around it. */
  function Received(s: Spi): Spi
    requires s.rx != []
  {
    s.(rx := s.rx[1..], status := s.status.(rxFull := false, rxEmpty := s.status.rxEmpty || |s.rx| == 1))
  }

  /** xlnx_spi_read of register `r`: the value read and the controller afterwards. */
  function ReadReg(s: Spi, r: nat): (nat, Spi)
    requires |s.regs| == R_MAX
  {
    if r == R_SPIDRR then
      if s.rx == [] then (0xdead_beef, s)
      else
        var v: nat := s.rx[0];
        (v, UpdateIrq(Received(s)))
    else if r == R_SPISR then (StatusWord(s.status), UpdateIrq(s))
    else (if r < R_MAX then s.regs[r] else 0, UpdateIrq(s))
  }

  /** fifo_push to the transmit queue with the status bits around it. */
  function Queued(s: Spi, b: Byte): Spi {
    var tx := Pushed(s.tx, b);
    s.(tx := tx, status := s.status.(txEmpty := false, txFull := s.status.txFull || |tx| == CAPACITY))
  }

  /** The write of a byte to the transmit register. */
  ghost function WriteData(step: Stepper, s: Spi, b: Byte): (t: Spi)
    requires |s.regs| == R_MAX
    ensures |t.regs| == R_MAX
  {
    var u := Queued(s, b);
    if MasterEnabled(u) then Flush(step, u) else u
  }

  /** The write of the control register: queue resets, then the value without the reset bits, then a flush. */
  ghost function WriteControl(step: Stepper, s: Spi, data: nat): (t: Spi)
    requires |s.regs| == R_MAX
    ensures |t.regs| == R_MAX
  {
    var c := Controlled(s, data);
    if MasterEnabled(c) then Flush(step, c) else c
  }

  function QueuesReset(s: Spi, data: nat): (t: Spi)
    ensures t.regs == s.regs
  {
    var a := if data / 64 % 2 == 1 then RxReset(s) else s;
    if data / 32 % 2 == 1 then TxReset(a) else a
  }

  function Controlled(s: Spi, data: nat): (t: Spi)
    requires |s.regs| == R_MAX
    ensures |t.regs| == R_MAX
  {
    var b := QueuesReset(s, data);
    b.(regs := b.regs[R_SPICR := Unreset(data)])
  }

  /** A control word without its reset bits. */
  function Unreset(data: nat): nat {
    data - 64 * (data / 64 % 2) - 32 * (data / 32 % 2)
  }

  /** The switch of xlnx_spi_write. */
  ghost function WriteCase(step: Stepper, cs: Flash -> Flash, s: Spi, r: nat, data: nat): (t: Spi)
    requires |s.regs| == R_MAX
    ensures |t.regs| == R_MAX
  {
    if r == R_SRR then if data == 0xa then Reset(cs, s) else s
    else if r == R_SPIDTR then WriteData(step, s, data % 256)
    else if r == R_SPISR then s
    else if r == R_IPISR then s.(regs := s.regs[r := Xor(s.regs[r], data)])
    else if r == R_SPISSR then s.(regs := s.regs[r := data], flash := cs(s.flash))
    else if r == R_SPICR then WriteControl(step, s, data)
    else if r < R_MAX then s.(regs := s.regs[r := data])
    else s
  }

  /** xlnx_spi_write of register `r`. */
  ghost function WriteReg(step: Stepper, cs: Flash -> Flash, s: Spi, r: nat, data: nat): Spi
    requires |s.regs| == R_MAX
  {
    UpdateIrq(WriteCase(step, cs, s, r, data))
  }

  // ---------------------------------------------------------------------------------------------------------------
  // What every access keeps

  /** The status bits describe the queues, and nothing waits to be sent while the master is enabled. */
  ghost predicate Consistent(s: Spi) {
    && Shaped(s)
    && (s.status.rxEmpty <==> s.rx == []) && (s.status.rxFull <==> |s.rx| == CAPACITY)
    && (s.status.txEmpty <==> s.tx == []) && (s.status.txFull <==> |s.tx| == CAPACITY)
    && (MasterEnabled(s) ==> s.tx == [])
  }

  /** What holds before and between the rounds of a flush: the bits of the receive queue are right; those of the
      transmit queue are so when nothing is left to send. */
  ghost predicate Flushing(s: Spi) {
    && Shaped(s)
    && (s.status.rxEmpty <==> s.rx == []) && (s.status.rxFull <==> |s.rx| == CAPACITY)
    && (s.tx == [] ==> s.status.txEmpty && !s.status.txFull)
  }

  lemma {:induction false} FlushKeeps(step: Stepper, s: Spi)
    requires Flushing(s)
    ensures Flushing(Flush(step, s)) && Flush(step, s).tx == []
    ensures Flush(step, s).regs[R_SPICR] == s.regs[R_SPICR] && Flush(step, s).regs[R_SPISSR] == s.regs[R_SPISSR]
    decreases |s.tx|
  {
    if s.tx != [] {
      var (answer, flash) := Exchange(step, s, s.tx[0]);
      FlushKeeps(step, FlushOne(s, answer, flash));
    }
  }

  lemma ReadKeeps(s: Spi, r: nat)
    requires Consistent(s)
    ensures Consistent(ReadReg(s, r).1)
  {}

  lemma WriteDataKeeps(step: Stepper, s: Spi, b: Byte)
    requires Consistent(s)
    ensures Consistent(WriteData(step, s, b))
  {
    if MasterEnabled(s) { FlushKeeps(step, Queued(s, b)); }
  }

  lemma ControlledKeeps(step: Stepper, s: Spi, value: nat)
    requires Flushing(s) && (s.status.txEmpty <==> s.tx == []) && (s.status.txFull <==> |s.tx| == CAPACITY)
    ensures var c := s.(regs := s.regs[R_SPICR := value]);
            Consistent(if MasterEnabled(c) then Flush(step, c) else c)
  {
    var c := s.(regs := s.regs[R_SPICR := value]);
    if MasterEnabled(c) { FlushKeeps(step, c); }
  }

  lemma WriteControlKeeps(step: Stepper, s: Spi, data: nat)
    requires Consistent(s)
    ensures Consistent(WriteControl(step, s, data))
  {
    ControlledKeeps(step, QueuesReset(s, data), Unreset(data));
  }

  /** A reset makes any controller consistent. */
  lemma ResetConsistent(cs: Flash -> Flash, s: Spi)
    ensures Consistent(Reset(cs, s)) && Reset(cs, s).rx == [] && !MasterEnabled(Reset(cs, s))
  {}

  lemma WriteKeeps(step: Stepper, cs: Flash -> Flash, s: Spi, r: nat, data: nat)
    requires Consistent(s)
    ensures Consistent(WriteReg(step, cs, s, r, data))
  {
    if r == R_SRR { ResetConsistent(cs, s); }
    if r == R_SPIDTR { WriteDataKeeps(step, s, data % 256); }
    if r == R_SPICR { WriteControlKeeps(step, s, data); }
    assert Consistent(WriteCase(step, cs, s, r, data));
  }

  datatype Access = ReadOf(r: nat) | WriteOf(r: nat, data: nat)

  ghost function AccessAll(step: Stepper, cs: Flash -> Flash, s: Spi, accesses: seq<Access>): (t: Spi)
    requires |s.regs| == R_MAX
    ensures |t.regs| == R_MAX
    decreases accesses
  {
    if accesses == [] then s
    else
      var t := match accesses[0]
               case ReadOf(r) => ReadReg(s, r).1
               case WriteOf(r, data) => WriteReg(step, cs, s, r, data);
      AccessAll(step, cs, t, accesses[1..])
  }

  /** After a reset and any sequence of register accesses, whatever the chip does, the status bits describe the queues
      and nothing waits to be sent while the master is enabled. */
  lemma {:induction false} AccessesKeep(step: Stepper, cs: Flash -> Flash, s: Spi, accesses: seq<Access>)
    requires Consistent(s)
    ensures var t := AccessAll(step, cs, s, accesses); Consistent(t) && StatusTold(t)
    decreases accesses
  {
    if accesses == [] {
      ConsistentTold(s);
    } else {
      match accesses[0] {
        case ReadOf(r) =>
          ReadKeeps(s, r);
          AccessesKeep(step, cs, ReadReg(s, r).1, accesses[1..]);
        case WriteOf(r, data) =>
          WriteKeeps(step, cs, s, r, data);
          AccessesKeep(step, cs, WriteReg(step, cs, s, r, data), accesses[1..]);
      }
    }
  }

  lemma AfterReset(step: Stepper, cs: Flash -> Flash, s: Spi, accesses: seq<Access>)
    ensures var t := AccessAll(step, cs, Reset(cs, s), accesses); Consistent(t) && StatusTold(t)
  {
    ResetConsistent(cs, s);
    AccessesKeep(step, cs, Reset(cs, s), accesses);
  }

  // ---------------------------------------------------------------------------------------------------------------
  // What the guest reads

  /** A word tells the state of the queues: bit 0 receive empty, bit 1 receive full, bit 2 transmit empty, bit 3
      transmit full. */
  ghost predicate Tells(v: nat, s: Spi) {
    && (HasBit(v, 0) <==> s.rx == []) && (HasBit(v, 1) <==> |s.rx| == CAPACITY)
    && (HasBit(v, 2) <==> s.tx == []) && (HasBit(v, 3) <==> |s.tx| == CAPACITY)
  }

  /** A read of the status register tells it. */
  ghost predicate StatusTold(s: Spi)
    requires |s.regs| == R_MAX
  {
    Tells(ReadReg(s, R_SPISR).0, s)
  }

  lemma StatusBits(b0: nat, b1: nat, b2: nat, b3: nat, b5: nat)
    requires b0 < 2 && b1 < 2 && b2 < 2 && b3 < 2 && b5 < 2
    ensures var v := b0 + 2 * b1 + 4 * b2 + 8 * b3 + 32 * b5;
            && (HasBit(v, 0) <==> b0 == 1) && (HasBit(v, 1) <==> b1 == 1) && (HasBit(v, 2) <==> b2 == 1)
            && (HasBit(v, 3) <==> b3 == 1) && (HasBit(v, 5) <==> b5 == 1)
  {
    var v := b0 + 2 * b1 + 4 * b2 + 8 * b3 + 32 * b5;
    var v1 := b1 + 2 * b2 + 4 * b3 + 16 * b5;
    var v2 := b2 + 2 * b3 + 8 * b5;
    var v3 := b3 + 4 * b5;
    assert v / 2 == v1 && v1 / 2 == v2 && v2 / 2 == v3 && v3 / 2 == 2 * b5 && 2 * b5 / 2 == b5;
    assert HasBit(v, 1) == HasBit(v1, 0);
    assert HasBit(v, 2) == HasBit(v1, 1) == HasBit(v2, 0);
    assert HasBit(v, 3) == HasBit(v1, 2) == HasBit(v2, 1) == HasBit(v3, 0);
    assert HasBit(v, 5) == HasBit(v1, 4) == HasBit(v2, 3) == HasBit(v3, 2) == HasBit(2 * b5, 1) == HasBit(b5, 0);
  }

  lemma ConsistentTold(s: Spi)
    requires Consistent(s)
    ensures StatusTold(s) && (s.status.slaveMode <==> HasBit(ReadReg(s, R_SPISR).0, 5))
  {
    var t := s.status;
    StatusBits(if t.rxEmpty then 1 else 0, if t.rxFull then 1 else 0, if t.txEmpty then 1 else 0,
               if t.txFull then 1 else 0, if t.slaveMode then 1 else 0);
  }

  /** Directly after a reset the guest reads: receive and transmit queues empty and slave mode in the status register,
      0x180 in the control register, all ones in the slave select register, and zero elsewhere. */
  lemma ResetRegisters(cs: Flash -> Flash, s: Spi, r: nat)
    requires r != R_SPIDRR
    ensures ReadReg(Reset(cs, s), r).0 ==
            if r == R_SPISR then 0x25 else if r == R_SPICR then 0x180 else if r == R_SPISSR then 0xFFFF_FFFF else 0
  {
    assert Or(0, 0) == 0;
  }

  lemma {:induction false} SlaveModeKept(step: Stepper, s: Spi)
    requires |s.regs| == R_MAX
    ensures Flush(step, s).status.slaveMode == s.status.slaveMode
    decreases |s.tx|
  {
    if s.tx != [] {
      var (answer, flash) := Exchange(step, s, s.tx[0]);
      SlaveModeKept(step, FlushOne(s, answer, flash));
    }
  }

  lemma WriteSlaveMode(step: Stepper, cs: Flash -> Flash, s: Spi, r: nat, data: nat)
    requires |s.regs| == R_MAX && s.status.slaveMode
    ensures WriteReg(step, cs, s, r, data).status.slaveMode
  {
    assert WriteCase(step, cs, s, r, data).status.slaveMode by {
      if r == R_SPIDTR { DataSlaveMode(step, s, data % 256); }
      if r == R_SPICR { ControlSlaveMode(step, s, data); }
    }
  }

  lemma DataSlaveMode(step: Stepper, s: Spi, b: Byte)
    requires |s.regs| == R_MAX && s.status.slaveMode
    ensures WriteData(step, s, b).status.slaveMode
  {
    SlaveModeKept(step, Queued(s, b));
  }

  lemma ControlSlaveMode(step: Stepper, s: Spi, data: nat)
    requires |s.regs| == R_MAX && s.status.slaveMode
    ensures WriteControl(step, s, data).status.slaveMode
  {
    SlaveModeKept(step, Controlled(s, data));
  }

  lemma {:induction false} AccessesSlaveMode(step: Stepper, cs: Flash -> Flash, s: Spi, accesses: seq<Access>)
    requires |s.regs| == R_MAX && s.status.slaveMode
    ensures AccessAll(step, cs, s, accesses).status.slaveMode
    decreases accesses
  {
    if accesses != [] {
      match accesses[0] {
        case ReadOf(r) => AccessesSlaveMode(step, cs, ReadReg(s, r).1, accesses[1..]);
        case WriteOf(r, data) =>
          WriteSlaveMode(step, cs, s, r, data);
          AccessesSlaveMode(step, cs, WriteReg(step, cs, s, r, data), accesses[1..]);
      }
    }
  }

  /** After a reset and any sequence of register accesses, whatever the chip does, a read of the status register tells
      the state of the queues, with the slave mode bit set. */
  lemma StatusAfterReset(step: Stepper, cs: Flash -> Flash, s: Spi, accesses: seq<Access>)
    ensures var t := AccessAll(step, cs, Reset(cs, s), accesses);
            StatusTold(t) && HasBit(ReadReg(t, R_SPISR).0, 5)
  {
    AfterReset(step, cs, s, accesses);
    ConsistentTold(AccessAll(step, cs, Reset(cs, s), accesses));
    AccessesSlaveMode(step, cs, Reset(cs, s), accesses);
  }

  /** A plain register reads back what was written to it. */
  lemma PlainRegister(step: Stepper, cs: Flash -> Flash, s: Spi, r: nat, data: nat)
    requires |s.regs| == R_MAX && r < R_MAX && r !in {R_SRR, R_SPIDTR, R_SPIDRR, R_SPISR, R_IPISR, R_SPICR}
    ensures ReadReg(WriteReg(step, cs, s, r, data), r).0 == data
  {}

  // ---------------------------------------------------------------------------------------------------------------
  // Interrupts

  /** Interrupt `i` is pending: recorded before, or its condition on the receive queue holds now. */
  ghost predicate Pending(s: Spi, i: nat)
    requires |s.regs| == R_MAX
  {
    HasBit(s.regs[R_IPISR], i) || (i == 8 && s.rx != []) || (i == 4 && |s.rx| == CAPACITY)
  }

  /** Interrupt `i` is pending and enabled. */
  ghost predicate Asked(s: Spi, i: nat)
    requires |s.regs| == R_MAX
  {
    Pending(s, i) && HasBit(s.regs[R_IPIER], i)
  }

  lemma PendingRecorded(s: Spi, i: nat)
    requires |s.regs| == R_MAX
    ensures HasBit(UpdateIrq(s).regs[R_IPISR], i) <==> Pending(s, i)
  {
    var more := (if s.rx != [] then IRQ_DRR_NOT_EMPTY else 0) + (if |s.rx| == CAPACITY then IRQ_DRR_FULL else 0);
    OrBits(s.regs[R_IPISR], more, i);
    SingleBits(i);
    NoBits(i);
  }

  /** The interrupt line is raised exactly when interrupts are enabled globally and some enabled one is pending. */
  lemma InterruptLine(s: Spi)
    requires |s.regs| == R_MAX
    ensures UpdateIrq(s).irq <==>
            s.regs[R_DGIER] / 0x8000_0000 % 2 == 1 && exists i: nat :: Asked(s, i)
  {
    var t := UpdateIrq(s);
    AndBits(t.regs[R_IPISR], t.regs[R_IPIER]);
    forall i: nat ensures HasBit(t.regs[R_IPISR], i) <==> Pending(s, i) {
      PendingRecorded(s, i);
    }
    assert forall i: nat :: Common(t.regs[R_IPISR], t.regs[R_IPIER], i) <==> Asked(s, i);
  }

  /** Writing ones to the interrupt status register toggles those bits; what the receive queue demands comes back. */
  lemma InterruptToggle(step: Stepper, cs: Flash -> Flash, s: Spi, data: nat, i: nat)
    requires |s.regs| == R_MAX
    ensures HasBit(WriteReg(step, cs, s, R_IPISR, data).regs[R_IPISR], i) <==>
            (HasBit(s.regs[R_IPISR], i) != HasBit(data, i)) || (i == 8 && s.rx != []) || (i == 4 && |s.rx| == CAPACITY)
  {
    XorBits(s.regs[R_IPISR], data, i);
    PendingRecorded(s.(regs := s.regs[R_IPISR := Xor(s.regs[R_IPISR], data)]), i);
  }

  // ---------------------------------------------------------------------------------------------------------------
  // A whole transfer

  /** A controller in use: consistent, enabled, with the chip selected. */
  ghost predicate InUse(s: Spi) {
    Consistent(s) && MasterEnabled(s) && Selected(s)
  }

  lemma FlushSingle(step: Stepper, u: Spi, b: Byte)
    requires |u.regs| == R_MAX && u.tx == [b] && Selected(u)
    ensures Flush(step, u) == FlushOne(u, step(u.flash, b).0, step(u.flash, b).1)
  {
    var v := FlushOne(u, step(u.flash, b).0, step(u.flash, b).1);
    assert v.tx == [] && Flush(step, v) == v;
  }

  lemma SendData(step: Stepper, s: Spi, b: Byte)
    requires InUse(s) && |s.rx| < CAPACITY
    ensures var t := WriteData(step, s, b);
            InUse(t) && t.rx == s.rx + [step(s.flash, b).0] && t.flash == step(s.flash, b).1
  {
    WriteDataKeeps(step, s, b);
    FlushSingle(step, Queued(s, b), b);
  }

  lemma IrqKeepsUse(s: Spi)
    requires InUse(s)
    ensures InUse(UpdateIrq(s)) && UpdateIrq(s).rx == s.rx && UpdateIrq(s).flash == s.flash
  {}

  lemma DataCase(step: Stepper, cs: Flash -> Flash, s: Spi, b: Byte)
    requires |s.regs| == R_MAX
    ensures WriteReg(step, cs, s, R_SPIDTR, b) == UpdateIrq(WriteData(step, s, b))
  {
    var x: nat := b;
    assert x % 256 == x;
  }

  /** A byte written is sent at once, and with room in the receive queue the answer is queued. */
  lemma SendOne(step: Stepper, cs: Flash -> Flash, s: Spi, b: Byte)
    requires InUse(s) && |s.rx| < CAPACITY
    ensures var t := WriteReg(step, cs, s, R_SPIDTR, b);
            InUse(t) && t.rx == s.rx + [step(s.flash, b).0] && t.flash == step(s.flash, b).1
  {
    SendData(step, s, b);
    IrqKeepsUse(WriteData(step, s, b));
    DataCase(step, cs, s, b);
  }

  /** With the receive queue full the byte is sent all the same, but the answer is lost and the overrun interrupt is
      pending. */
  lemma SendWhenFull(step: Stepper, cs: Flash -> Flash, s: Spi, b: Byte)
    requires InUse(s) && |s.rx| == CAPACITY
    ensures var t := WriteReg(step, cs, s, R_SPIDTR, b);
            InUse(t) && t.rx == s.rx && t.flash == step(s.flash, b).1 && HasBit(t.regs[R_IPISR], 5)
  {
    DataCase(step, cs, s, b);
    WriteDataKeeps(step, s, b);
    FlushSingle(step, Queued(s, b), b);
    var t := WriteData(step, s, b);
    IrqKeepsUse(t);
    OverrunPending(Queued(s, b).(tx := [], flash := step(s.flash, b).1), step(s.flash, b).0);
    PendingRecorded(t, 5);
  }

  lemma OverrunPending(s: Spi, answer: Byte)
    requires |s.regs| == R_MAX && |s.rx| == CAPACITY
    ensures HasBit(Answered(s, answer).regs[R_IPISR], 5) && Answered(s, answer).rx == s.rx
  {
    var i := s.regs[R_IPISR];
    assert HasBit(1, 0) && HasBit(2, 1) && HasBit(4, 2) && HasBit(8, 3);
    assert HasBit(IRQ_DRR_OVERRUN, 5) == HasBit(16, 4) == HasBit(8, 3);
    OrBits(i, IRQ_DRR_OVERRUN, 5);
    OrBits(Or(i, IRQ_DRR_OVERRUN), IRQ_DTR_EMPTY, 5);
    OrBits(Or(Or(i, IRQ_DRR_OVERRUN), IRQ_DTR_EMPTY), IRQ_DRR_NOT_EMPTY, 5);
  }

  type Sender = (Spi, Byte) -> Spi

  /** Writing a byte to the transmit register. */
  ghost function Sending(step: Stepper, cs: Flash -> Flash): Sender {
    (s: Spi, b: Byte) => if |s.regs| == R_MAX then WriteReg(step, cs, s, R_SPIDTR, b) else s
  }

  ghost function SendAll(send: Sender, s: Spi, bs: seq<Byte>): (t: Spi)
    decreases bs
  {
    if bs == [] then s else SendAll(send, send(s, bs[0]), bs[1..])
  }

  /** How any controller in use sends: at once, queueing the chip's answer. */
  ghost predicate Sends(step: Stepper, send: Sender) {
    forall s: Spi, b: Byte {:trigger send(s, b)} :: InUse(s) && |s.rx| < CAPACITY ==>
      InUse(send(s, b)) && send(s, b).rx == s.rx + [step(s.flash, b).0] && send(s, b).flash == step(s.flash, b).1
  }

  lemma {:induction false} SendAllAnswers(step: Stepper, send: Sender, s: Spi, bs: seq<Byte>)
    requires InUse(s) && |s.rx| + |bs| <= CAPACITY && Sends(step, send)
    ensures var t := SendAll(send, s, bs);
            InUse(t) && t.rx == s.rx + Feed(step, s.flash, bs).0 && t.flash == Feed(step, s.flash, bs).1
    decreases bs
  {
    if bs == [] {
      assert s.rx + Feed(step, s.flash, bs).0 == s.rx;
    } else {
      SendAllAnswers(step, send, send(s, bs[0]), bs[1..]);
      var (b, g) := step(s.flash, bs[0]);
      var rest := Feed(step, g, bs[1..]).0;
      assert s.rx + [b] + rest == s.rx + ([b] + rest);
    }
  }

  /** Writing to the transmit register of this controller is sending in that sense, whatever the chip. */
  lemma SendingSends(step: Stepper, cs: Flash -> Flash)
    ensures Sends(step, Sending(step, cs))
  {
    var send := Sending(step, cs);
    forall s: Spi, b: Byte | InUse(s) && |s.rx| < CAPACITY
      ensures InUse(send(s, b))
      ensures send(s, b).rx == s.rx + [step(s.flash, b).0] && send(s, b).flash == step(s.flash, b).1
    {
      SendOne(step, cs, s, b);
    }
  }

  type Receiver = Spi -> (nat, Spi)

  /** Reading the receive register. */
  ghost function Receiving(): Receiver {
    (s: Spi) => if |s.regs| == R_MAX then ReadReg(s, R_SPIDRR) else (0, s)
  }

  /** Receiving `n` times. */
  ghost function ReceiveAll(receive: Receiver, s: Spi, n: nat): (seq<nat>, Spi)
    decreases n
  {
    if n == 0 then ([], s)
    else
      var (v, t) := receive(s);
      var (vs, u) := ReceiveAll(receive, t, n - 1);
      ([v] + vs, u)
  }

  /** How any controller receives: the first byte of the queue. */
  ghost predicate Receives(receive: Receiver) {
    forall s: Spi {:trigger receive(s)} :: Consistent(s) && s.rx != [] ==>
      receive(s).0 == s.rx[0] && receive(s).1.rx == s.rx[1..] && Consistent(receive(s).1)
  }

  lemma ReceivingReceives()
    ensures Receives(Receiving())
  {
    forall s: Spi | Consistent(s) && s.rx != []
      ensures var (v, t) := Receiving()(s); v == s.rx[0] && t.rx == s.rx[1..] && Consistent(t)
    {
      ReadKeeps(s, R_SPIDRR);
    }
  }

  /** Receiving as often as there are bytes gives them all, in order. */
  lemma {:induction false} ReceiveAllGives(receive: Receiver, s: Spi)
    requires Consistent(s) && Receives(receive)
    ensures ReceiveAll(receive, s, |s.rx|).0 == s.rx && ReceiveAll(receive, s, |s.rx|).1.rx == []
    decreases |s.rx|
  {
    if s.rx != [] {
      ReceiveAllGives(receive, receive(s).1);
      assert s.rx == [s.rx[0]] + s.rx[1..];
    }
  }

  /** What a guest reads that writes some bytes to the transmit register and then receives `n` times. */
  ghost function Transaction(send: Sender, receive: Receiver, s: Spi, bytes: seq<Byte>, n: nat): seq<nat> {
    ReceiveAll(receive, SendAll(send, s, bytes), n).0
  }

  /** The controller passes on what was queued before and then what the chip answers, byte for byte. */
  lemma TransactionAnswers(step: Stepper, send: Sender, receive: Receiver, s: Spi, bytes: seq<Byte>)
    requires InUse(s) && |s.rx| + |bytes| <= CAPACITY && Sends(step, send) && Receives(receive)
    ensures Transaction(send, receive, s, bytes, |s.rx| + |bytes|) == s.rx + Feed(step, s.flash, bytes).0
  {
    SendAllAnswers(step, send, s, bytes);
    ReceiveSent(send, receive, s, bytes, Feed(step, s.flash, bytes).0);
  }

  lemma ReceiveSent(send: Sender, receive: Receiver, s: Spi, bytes: seq<Byte>, answers: seq<Byte>)
    requires Receives(receive) && |answers| == |bytes|
    requires var t := SendAll(send, s, bytes); InUse(t) && t.rx == s.rx + answers
    ensures Transaction(send, receive, s, bytes, |s.rx| + |bytes|) == s.rx + answers
  {
    ReceiveAllGives(receive, SendAll(send, s, bytes));
  }

  /** A read command sent by any controller that sends at once. */
  lemma ReadThroughAny(
    p: Part, send: Sender, receive: Receiver, s: Spi, a2: Byte, a1: Byte, a0: Byte, more: seq<Byte>, bytes: seq<Byte>)
    requires InUse(s) && Ready(p, s.flash) && Sends(Chip(p), send) && Receives(receive)
    requires bytes == [READ, a2, a1, a0] + more && |s.rx| + |bytes| <= CAPACITY
    ensures var bs := Feed(Chip(p), s.flash, bytes).0;
            && Transaction(send, receive, s, bytes, |s.rx| + |bytes|) == s.rx + bs
            && Answers(bs, s.flash.storage, Address(p, s.flash.regs.ear, a2, a1, a0), |more|)
  {
    TransactionAnswers(Chip(p), send, receive, s, bytes);
    ReadCommand(p, s.flash, a2, a1, a0, more);
  }

  /** The whole path of a flash read: the guest writes the read command, three address bytes and some more bytes to the
      transmit register, then reads the receive register until it is empty, and gets what was queued before, four zero
      bytes and the bytes stored from the address on. */
  lemma ReadThroughController(
    p: Part, cs: Flash -> Flash, s: Spi, a2: Byte, a1: Byte, a0: Byte, more: seq<Byte>, bytes: seq<Byte>)
    requires InUse(s) && Ready(p, s.flash)
    requires bytes == [READ, a2, a1, a0] + more && |s.rx| + |bytes| <= CAPACITY
    ensures var bs := Feed(Chip(p), s.flash, bytes).0;
            && Transaction(Sending(Chip(p), cs), Receiving(), s, bytes, |s.rx| + |bytes|) == s.rx + bs
            && Answers(bs, s.flash.storage, Address(p, s.flash.regs.ear, a2, a1, a0), |more|)
  {
    SendingSends(Chip(p), cs);
    ReceivingReceives();
    ReadThroughAny(p, Sending(Chip(p), cs), Receiving(), s, a2, a1, a0, more, bytes);
  }

  // ---------------------------------------------------------------------------------------------------------------
  // The controller with its flash

  /** m25p80_cs(select) as a function of any state. */
  ghost function Selecting(p: Part): Flash -> Flash {
    (f: Flash) => if Valid(p, f) && Fits(p, SelectArea(p, f.regs)) then Select(p, f) else f
  }

  ghost predicate FlushInRange(p: Part, s: Spi)
    requires |s.regs| == R_MAX
  {
    Selected(s) ==> AllAllowed(Chip(p), Allowed(p), s.flash, s.tx)
  }

  /** Every erase that a write sets off stays inside the array. */
  ghost predicate WriteInRange(p: Part, s: Spi, r: nat, data: nat)
    requires |s.regs| == R_MAX && Valid(p, s.flash)
  {
    if (r == R_SRR && data == 0xa) || r == R_SPISSR then Fits(p, SelectArea(p, s.flash.regs))
    else if r == R_SPIDTR then MasterEnabled(s) ==> FlushInRange(p, Queued(s, data % 256))
    else if r == R_SPICR then MasterEnabled(Controlled(s, data)) ==> FlushInRange(p, Controlled(s, data))
    else true
  }

  /** A round of the flush loop leaves the rest of the flush to do, and it stays in range. */
  lemma FlushStep(p: Part, s: Spi, answer: Byte, flash: Flash)
    requires |s.regs| == R_MAX && s.tx != [] && FlushInRange(p, s)
    requires (answer, flash) == Exchange(Chip(p), s, s.tx[0])
    ensures var t := FlushOne(s, answer, flash);
            FlushInRange(p, t) && Flush(Chip(p), t) == Flush(Chip(p), s)
  {}

  lemma ChipKeeps(p: Part, f: Flash, b: Byte)
    requires Good(p, f) && Allowed(p)(f, b)
    ensures Good(p, Chip(p)(f, b).1)
  {
    TransferKeeps(p, f, b);
  }

  lemma {:induction false} FlushGood(p: Part, s: Spi)
    requires |s.regs| == R_MAX && Good(p, s.flash) && FlushInRange(p, s)
    ensures Good(p, Flush(Chip(p), s).flash)
    decreases |s.tx|
  {
    if s.tx != [] {
      if Selected(s) { ChipKeeps(p, s.flash, s.tx[0]); }
      var (answer, flash) := Exchange(Chip(p), s, s.tx[0]);
      FlushGood(p, FlushOne(s, answer, flash));
    }
  }

  /** Every write in range keeps backing file and storage in agreement outside the dirty page; a reset or a write of the
      slave select register makes them equal. */
  lemma WriteGood(p: Part, s: Spi, r: nat, data: nat)
    requires |s.regs| == R_MAX && Good(p, s.flash) && WriteInRange(p, s, r, data)
    ensures var f := WriteReg(Chip(p), Selecting(p), s, r, data).flash;
            Good(p, f) && ((r == R_SRR && data == 0xa) || r == R_SPISSR ==> f.file == f.storage)
  {
    if (r == R_SRR && data == 0xa) || r == R_SPISSR {
      SelectSyncs(p, s.flash);
    } else if r == R_SPIDTR && MasterEnabled(s) {
      FlushGood(p, Queued(s, data % 256));
    } else if r == R_SPICR && MasterEnabled(Controlled(s, data)) {
      FlushGood(p, Controlled(s, data));
    }
  }
}
