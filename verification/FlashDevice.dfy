/** The flash as a device that changes in place: flash_erase, flash_sync_dirty, flash_write8, m25p80_transfer8 and
    m25p80_cs (src/dev/flash.c), each proved to be the step of module FlashChip. */
module FlashDevice {
  import opened Bitwise
  import opened FlashChip
  import opened FlashRuns

  class Device {
    const part: Part
    var regs: Regs
    const storage: array<Byte>
    var file: seq<Byte>
    var dirty: int

    /** flash_init: the storage is read from the backing file. */
    constructor (part: Part, regs: Regs, file: seq<Byte>)
      requires ValidPart(part) && |file| == part.size && |regs.data| == BUFFER && regs.addr < part.size
      ensures this.part == part && View() == Flash(regs, file, file, -1) && Ok()
    {
      this.part, this.regs, this.file, dirty := part, regs, file, -1;
      storage := new Byte[|file|](i requires 0 <= i < |file| => file[i]);
      new;
      assert storage[..] == file;
    }

    ghost function View(): Flash
      reads this, storage
    {
      Flash(regs, storage[..], file, dirty)
    }

    ghost predicate Ok()
      reads this, storage
    {
      Valid(part, View())
    }

    /** The memset of flash_erase. */
    method ClearStorage(lo: nat, hi: nat)
      requires lo <= hi <= storage.Length
      modifies storage
      ensures storage[..] == old(storage[..])[..lo] + Filled(hi - lo, 0xff) + old(storage[..])[hi..]
    {
      for i := lo to hi
        invariant forall k :: 0 <= k < storage.Length ==> storage[k] == if lo <= k < i then 0xff else old(storage[k])
      {
        storage[i] := 0xff;
      }
    }

    /** flash_erase. */
    method Erase(a: Area)
      requires Ok() && Fits(part, a)
      modifies `file, storage
      ensures View() == EraseNow(part, old(View()), a)
    {
      if a.NoArea? || !regs.writeEnable {
        return;
      }
      var hi := a.offset + a.len;
      ClearStorage(a.offset, hi);
      file := CopyArea(file, storage[..], a.offset, hi);
    }

    /** flash_sync_dirty. */
    method SyncDirtyPage(page: int)
      requires Ok()
      modifies `file, `dirty
      ensures View() == SyncDirty(part, old(View()), page)
    {
      if dirty >= 0 && dirty != page {
        PageInside(part, dirty);
        file := CopyArea(file, storage[..], dirty * PAGE_SIZE, (dirty + 1) * PAGE_SIZE);
        dirty := page;
      }
    }

    /** flash_write8 at the current address. */
    method WriteByte(b: Byte)
      requires Ok()
      modifies `file, `dirty, storage
      ensures View() == Write8(part, old(View()), b)
    {
      var a := regs.addr;
      var was := storage[a];
      ghost var before := storage[..];
      var now: Byte := if part.eeprom then b else And(was, b);
      storage[a] := now;
      assert storage[..] == before[a := now];
      SyncDirtyPage(a / PAGE_SIZE);
      dirty := a / PAGE_SIZE;
    }

    /** One byte while collecting an address or a register value. */
    method CollectByte(tx: Byte)
      requires Ok() && Fits(part, CompletedArea(part, regs, tx))
      modifies `regs, `file, storage
      ensures View() == TakeByte(part, old(View()), tx)
    {
      if regs.len >= BUFFER {
        regs := regs.(len := 0, pos := 0, state := Idle);
        return;
      }
      regs := regs.(data := regs.data[regs.len := tx], len := regs.len + 1);
      if regs.len == regs.needed {
        var area := EraseArea(part, regs.cmd, CollectedAddress(part, regs));
        regs := Complete(part, regs);
        Erase(area);
      }
    }

    /** m25p80_transfer8. */
    method Transfer8(tx: Byte) returns (r: Byte)
      requires Ok() && Fits(part, Triggered(part, regs, tx))
      modifies this, storage
      ensures (r, View()) == Transfer(part, old(View()), tx)
    {
      r := 0;
      match regs.state
      case PageProgram =>
        WriteByte(tx);
        regs := NextAddr(part, regs);
      case Reading =>
        r := storage[regs.addr];
        regs := NextAddr(part, regs);
      case Collecting =>
        CollectByte(tx);
      case CollectingVarLen =>
        CollectByte(tx);
      case ReadingData =>
        if regs.pos >= BUFFER {
          regs := regs.(len := 0, pos := 0, state := Idle);
          return;
        }
        r := regs.data[regs.pos];
        regs := regs.(pos := regs.pos + 1);
        if regs.pos == regs.len {
          regs := regs.(pos := 0);
          if !regs.readLoop {
            regs := regs.(state := Idle);
          }
        }
      case Idle =>
        regs := Decode(part, regs, tx);
        if IsBulk(tx) {
          Erase(Area(0, part.size));
        }
    }

    /** Storage and file agree outside the dirty page. */
    ghost predicate InSync()
      reads this, storage
    {
      Good(part, View())
    }

    /** m25p80_transfer8 as the stepper of module FlashRuns. */
    method Step(tx: Byte) returns (r: Byte)
      requires InSync() && Allowed(part)(View(), tx)
      modifies this, storage
      ensures InSync() && (r, View()) == Chip(part)(old(View()), tx)
    {
      r := Transfer8(tx);
      TransferKeeps(part, old(View()), tx);
    }

    /** m25p80_cs(select) keeps the two in agreement. */
    method SelectChip()
      requires InSync() && Fits(part, SelectArea(part, regs))
      modifies this, storage
      ensures InSync() && View() == Select(part, old(View())) && file == storage[..]
    {
      SelectSyncs(part, View());
      Cs(true);
    }

    /** m25p80_cs. */
    method Cs(select: bool)
      requires Ok() && (select ==> Fits(part, SelectArea(part, regs)))
      modifies this, storage
      ensures View() == if select then Select(part, old(View())) else old(View())
    {
      if select {
        if regs.state == CollectingVarLen {
          var area := SelectArea(part, regs);
          regs := Complete(part, regs);
          Erase(area);
        }
        regs := regs.(len := 0, pos := 0, state := Idle);
        SyncDirtyPage(-1);
        regs := regs.(readLoop := false);
      }
    }
  }
}
