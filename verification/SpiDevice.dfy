/** The controller as a device that changes in place: ring queues over fixed arrays (include/utils/fifo.h), and the
    register accesses of src/dev/xlnx-spi.c, each proved to be the step of module SpiModel. */
module SpiDevice {
  import opened Bitwise
  import opened FlashChip
  import opened FlashRuns
  import opened FlashDevice
  import opened SpiModel

  /** The `size` elements of a ring from `head` on. */
  ghost function Window(e: seq<Byte>, head: nat, size: nat): (w: seq<Byte>)
    requires |e| == CAPACITY
    ensures |w| == size
  {
    seq(size, i requires 0 <= i => e[(head + i) % CAPACITY])
  }

  lemma WindowPush(e: seq<Byte>, head: nat, size: nat, b: Byte)
    requires |e| == CAPACITY && head < CAPACITY && size < CAPACITY
    ensures Window(e[(head + size) % CAPACITY := b], head, size + 1) == Window(e, head, size) + [b]
  {
    var f := e[(head + size) % CAPACITY := b];
    forall i | 0 <= i < size ensures Window(f, head, size + 1)[i] == Window(e, head, size)[i] {
      assert (head + i) % CAPACITY != (head + size) % CAPACITY;
    }
  }

  lemma WindowPop(e: seq<Byte>, head: nat, size: nat)
    requires |e| == CAPACITY && head < CAPACITY && 0 < size <= CAPACITY
    ensures e[head] == Window(e, head, size)[0]
    ensures Window(e, (head + 1) % CAPACITY, size - 1) == Window(e, head, size)[1..]
  {
    var next := (head + 1) % CAPACITY;
    forall i | 0 <= i < size - 1 ensures Window(e, next, size - 1)[i] == Window(e, head, size)[1..][i] {
      assert (next + i) % CAPACITY == (head + 1 + i) % CAPACITY;
    }
  }

  class Fifo {
    const e: array<Byte>
    var head: nat
    var size: nat

    constructor ()
      ensures Ok() && fresh(e) && Contents() == []
    {
      e := new Byte[CAPACITY](_ => 0);
      head, size := 0, 0;
    }

    ghost predicate Ok()
      reads this
    {
      e.Length == CAPACITY && head < CAPACITY && size <= CAPACITY
    }

    ghost function Contents(): seq<Byte>
      requires Ok()
      reads this, e
    {
      Window(e[..], head, size)
    }

    /** fifo_reset. */
    method Reset()
      requires Ok()
      modifies this
      ensures Ok() && Contents() == []
    {
      head, size := 0, 0;
    }

    /** fifo_push: a full queue drops the byte. */
    method Push(b: Byte)
      requires Ok()
      modifies this, e
      ensures Ok() && Contents() == Pushed(old(Contents()), b)
    {
      var next := (head + size) % CAPACITY;
      if size < CAPACITY {
        WindowPush(e[..], head, size, b);
        ghost var was := e[..];
        e[next] := b;
        assert e[..] == was[next := b];
        size := size + 1;
      }
    }

    /** fifo_pop: an empty queue gives whatever lies at its head and stays empty. */
    method Pop() returns (b: Byte)
      requires Ok()
      modifies this
      ensures Ok()
      ensures if old(Contents()) == [] then Contents() == [] else [b] + Contents() == old(Contents())
    {
      var oldHead := head;
      if size > 0 {
        WindowPop(e[..], head, size);
        head := (head + 1) % CAPACITY;
        size := size - 1;
      }
      b := e[oldHead];
    }
  }

  class Controller {
    const tx: Fifo
    const rx: Fifo
    const flash: Device
    var status: Status
    var regs: seq<nat>
    var irq: bool

    ghost predicate Apart() {
      tx != rx && tx.e != rx.e && flash.storage != tx.e && flash.storage != rx.e
    }

    ghost predicate Ok()
      reads this, tx, rx, flash, flash.storage
    {
      Apart() && tx.Ok() && rx.Ok() && flash.InSync() && |regs| == R_MAX
    }

    ghost function View(): Spi
      requires tx.Ok() && rx.Ok()
      reads this, tx, tx.e, rx, rx.e, flash, flash.storage
    {
      Spi(status, regs, tx.Contents(), rx.Contents(), flash.View(), irq)
    }

    /** The queues start as static storage does; xlnx_spi_init goes on with a reset. */
    constructor (flash: Device)
      requires flash.InSync()
      ensures Ok() && this.flash == flash && fresh(tx) && fresh(rx) && fresh(tx.e) && fresh(rx.e)
    {
      this.flash := flash;
      tx := new Fifo();
      rx := new Fifo();
      status, regs, irq := Status(false, false, false, false, false), ZeroRegs(), false;
    }

    /** xlnx_spi_update_irq. */
    method UpdateIrqLine()
      requires Ok()
      modifies `regs, `irq
      ensures Ok() && View() == UpdateIrq(old(View()))
    {
      var more := (if rx.size != 0 then IRQ_DRR_NOT_EMPTY else 0) + (if rx.size == CAPACITY then IRQ_DRR_FULL else 0);
      regs := regs[R_IPISR := Or(regs[R_IPISR], more)];
      irq := And(regs[R_IPISR], regs[R_IPIER]) != 0 && regs[R_DGIER] / 0x8000_0000 % 2 == 1;
    }

    /** txfifo_reset. */
    method TxFifoReset()
      requires Ok()
      modifies tx, `status
      ensures Ok() && View() == TxReset(old(View()))
    {
      tx.Reset();
      status := status.(txFull := false, txEmpty := true);
    }

    /** rxfifo_reset. */
    method RxFifoReset()
      requires Ok()
      modifies rx, `status
      ensures Ok() && View() == RxReset(old(View()))
    {
      rx.Reset();
      status := status.(rxFull := false, rxEmpty := true);
    }

    /** xlnx_spi_update_cs. */
    method UpdateCs()
      requires Ok() && Fits(flash.part, SelectArea(flash.part, flash.regs))
      modifies flash, flash.storage
      ensures Ok() && View() == old(View()).(flash := Selecting(flash.part)(old(View()).flash))
    {
      flash.SelectChip();
    }

    /** xlnx_spi_do_reset. */
    method DoReset()
      requires Ok() && Fits(flash.part, SelectArea(flash.part, flash.regs))
      modifies this, tx, rx, flash, flash.storage
      ensures Ok() && View() == Reset(Selecting(flash.part), old(View()))
    {
      regs := ZeroRegs();
      status := Status(false, false, false, false, false);
      RxFifoReset();
      TxFifoReset();
      regs := regs[R_SPICR := 0x180];
      status := status.(slaveMode := true);
      regs := regs[R_SPISSR := 0xFFFF_FFFF];
      UpdateIrqLine();
      UpdateCs();
    }

    /** The chip's answer to a byte sent. */
    method ExchangeByte(b: Byte) returns (r: Byte)
      requires Ok() && (Selected(View()) ==> Allowed(flash.part)(flash.View(), b))
      modifies flash, flash.storage
      ensures Ok() && (r, flash.View()) == Exchange(Chip(flash.part), old(View()), b)
      ensures View() == old(View()).(flash := flash.View())
    {
      r := 0;
      if regs[R_SPISSR] % 2 == 0 {
        r := flash.Step(b);
      }
    }

    method StoreAnswer(answer: Byte)
      requires Ok()
      modifies `status, `regs, rx, rx.e
      ensures Ok() && View() == Stored(old(View()), answer)
    {
      if rx.size == CAPACITY {
        regs := regs[R_IPISR := Or(regs[R_IPISR], IRQ_DRR_OVERRUN)];
      } else {
        rx.Push(answer);
        if rx.size == CAPACITY {
          status := status.(rxFull := true);
          regs := regs[R_IPISR := Or(regs[R_IPISR], IRQ_DRR_FULL)];
        }
      }
    }

    /** The part of a round of the flush loop after the chip's answer. */
    method TakeAnswer(answer: Byte)
      requires Ok()
      modifies `status, `regs, rx, rx.e
      ensures Ok() && View() == Answered(old(View()), answer)
    {
      StoreAnswer(answer);
      status := status.(rxEmpty := false, txFull := false, txEmpty := true);
      regs := regs[R_IPISR := Or(regs[R_IPISR], IRQ_DTR_EMPTY)];
      regs := regs[R_IPISR := Or(regs[R_IPISR], IRQ_DRR_NOT_EMPTY)];
    }

    /** spi_flush_txfifo. */
    method FlushTxFifo()
      requires Ok() && FlushInRange(flash.part, View())
      modifies `status, `regs, tx, rx, rx.e, flash, flash.storage
      ensures Ok() && View() == Flush(Chip(flash.part), old(View()))
    {
      while tx.size != 0
        invariant Ok() && FlushInRange(flash.part, View())
        invariant Flush(Chip(flash.part), View()) == Flush(Chip(flash.part), old(View()))
        decreases tx.size
      {
        FlushRound();
      }
    }

    /** A round of the loop of spi_flush_txfifo. */
    method FlushRound()
      requires Ok() && View().tx != [] && FlushInRange(flash.part, View())
      modifies `status, `regs, tx, rx, rx.e, flash, flash.storage
      ensures Ok() && tx.size < old(tx.size) && FlushInRange(flash.part, View())
      ensures Flush(Chip(flash.part), View()) == Flush(Chip(flash.part), old(View()))
    {
      ghost var before := View();
      var b := tx.Pop();
      assert before.tx == [b] + View().tx;
      assert before.tx[0] == b && before.tx[1..] == View().tx;
      var answer := ExchangeByte(b);
      ghost var chip := flash.View();
      TakeAnswer(answer);
      FlushStep(flash.part, before, answer, chip);
    }

    method Receive() returns (v: Byte)
      requires Ok() && View().rx != []
      modifies `status, rx
      ensures Ok() && v == old(View()).rx[0] && View() == Received(old(View()))
    {
      status := status.(rxFull := false);
      v := rx.Pop();
      assert old(View()).rx == [v] + View().rx;
      if rx.size == 0 {
        status := status.(rxEmpty := true);
      }
    }

    /** xlnx_spi_read of register `r`. */
    method ReadRegister(r: nat) returns (v: nat)
      requires Ok()
      modifies this, rx
      ensures Ok() && (v, View()) == ReadReg(old(View()), r)
      ensures r == R_SPISR && Consistent(old(View())) ==> Tells(v, old(View()))
    {
      if r == R_SPISR && Consistent(View()) { ConsistentTold(View()); }
      if r == R_SPIDRR {
        if rx.size == 0 {
          return 0xdead_beef;
        }
        v := Receive();
      } else if r == R_SPISR {
        v := StatusWord(status);
      } else if r < R_MAX {
        v := regs[r];
      } else {
        v := 0;
      }
      UpdateIrqLine();
    }

    method QueueByte(b: Byte)
      requires Ok()
      modifies `status, tx, tx.e
      ensures Ok() && View() == Queued(old(View()), b)
    {
      status := status.(txEmpty := false);
      tx.Push(b);
      if tx.size == CAPACITY {
        status := status.(txFull := true);
      }
    }

    method WriteTransmit(b: Byte)
      requires Ok() && (MasterEnabled(View()) ==> FlushInRange(flash.part, Queued(View(), b)))
      modifies this, tx, tx.e, rx, rx.e, flash, flash.storage
      ensures Ok() && View() == WriteData(Chip(flash.part), old(View()), b)
    {
      QueueByte(b);
      if regs[R_SPICR] / 256 % 2 == 0 {
        FlushTxFifo();
      }
    }

    method WriteControlRegister(data: nat)
      requires Ok() && WriteInRange(flash.part, View(), R_SPICR, data)
      modifies this, tx, rx, rx.e, flash, flash.storage
      ensures Ok() && View() == WriteControl(Chip(flash.part), old(View()), data)
    {
      if data / 64 % 2 == 1 {
        RxFifoReset();
      }
      if data / 32 % 2 == 1 {
        TxFifoReset();
      }
      assert View() == QueuesReset(old(View()), data);
      var kept := Unreset(data);
      regs := regs[R_SPICR := kept];
      assert View() == Controlled(old(View()), data);
      if kept / 256 % 2 == 0 {
        FlushTxFifo();
      }
    }

    /** xlnx_spi_write of register `r`. */
    method WriteRegister(r: nat, data: nat)
      requires Ok() && WriteInRange(flash.part, View(), r, data)
      modifies this, tx, tx.e, rx, rx.e, flash, flash.storage
      ensures Ok() && View() == WriteReg(Chip(flash.part), Selecting(flash.part), old(View()), r, data)
    {
      if r == R_SRR {
        if data == 0xa {
          DoReset();
        }
      } else if r == R_SPIDTR {
        WriteTransmit(data % 256);
      } else if r == R_SPISR {
      } else if r == R_IPISR {
        regs := regs[r := Xor(regs[r], data)];
      } else if r == R_SPISSR {
        regs := regs[r := data];
        UpdateCs();
      } else if r == R_SPICR {
        WriteControlRegister(data);
      } else if r < R_MAX {
        regs := regs[r := data];
      }
      assert View() == WriteCase(Chip(flash.part), Selecting(flash.part), old(View()), r, data);
      UpdateIrqLine();
    }
  }
}
