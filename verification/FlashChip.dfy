/** The serial NOR flash behind the SPI controller: its command state machine, as it changes registers, storage and
    backing file byte by byte (src/dev/flash.c). */
module FlashChip {
  import opened Bitwise

  type Byte = x: int | 0 <= x < 256

  const PAGE_SIZE: nat := 256
  const BUFFER: nat := 16
  const MAX_3BYTES: nat := 0x100_0000

  datatype Maker = Numonyx | Winbond | Spansion | Macronix | Sst | Generic

  /** The static description of a part (FlashPartInfo): `eepromOnly` is flags == EEPROM, `eeprom` is flags & EEPROM. */
  datatype Part = Part(id: seq<Byte>, idLen: nat, sectorSize: nat, size: nat, eeprom: bool, eepromOnly: bool, dies: nat)

  ghost predicate ValidPart(p: Part) {
    && |p.id| == 6 && p.idLen <= 6
    && p.size > 0 && p.size % PAGE_SIZE == 0
    && p.sectorSize > 0 && p.size % p.sectorSize == 0
    && (p.dies > 0 ==> p.size % p.dies == 0)
  }

  /** get_man. */
  function MakerOf(p: Part): Maker
    requires |p.id| == 6
  {
    if p.id[0] == 0x20 then Numonyx
    else if p.id[0] == 0xEF then Winbond
    else if p.id[0] == 0x01 then Spansion
    else if p.id[0] == 0xC2 then Macronix
    else if p.id[0] == 0xBF then Sst
    else Generic
  }

  datatype CmdState = Idle | PageProgram | Reading | Collecting | CollectingVarLen | ReadingData

  /** The fields of struct Flash other than storage, backing file and dirty page. */
  datatype Regs = Regs(
    state: CmdState, data: seq<Byte>, len: nat, pos: nat, readLoop: bool, needed: nat, cmd: nat, addr: nat,
    nvcfg: nat, vcfg: nat, evcfg: nat, writeEnable: bool, fourByte: bool, resetEnable: bool, quad: bool, ear: Byte)

  const WRSR: nat := 0x01
  const PP: nat := 0x02
  const READ: nat := 0x03
  const WRDI: nat := 0x04
  const RDSR: nat := 0x05
  const WREN: nat := 0x06
  const DIE_ERASE: nat := 0xC4

  predicate Is4K(v: nat) { v == 0x20 || v == 0x21 }
  predicate Is32K(v: nat) { v == 0x52 || v == 0x5c }
  predicate IsSector(v: nat) { v == 0xd8 || v == 0xdc }
  predicate IsErase(v: nat) { Is4K(v) || Is32K(v) || IsSector(v) || v == DIE_ERASE }
  predicate IsBulk(v: nat) { v == 0x60 || v == 0xc7 }
  predicate IsProgram(v: nat) { v == PP || v == 0x12 || v == 0x3e || v == 0xa2 || v == 0x32 || v == 0x34 }
  predicate IsPlainRead(v: nat) { v == READ || v == 0x13 }
  predicate IsFastRead(v: nat) { v == 0x0b || v == 0x0c || v == 0x3b || v == 0x3c || v == 0x6b || v == 0x6c }
  predicate IsDualRead(v: nat) { v == 0xbb || v == 0xbc }
  predicate IsQuadRead(v: nat) { v == 0xeb || v == 0xec }
  predicate IsReadId(v: nat) { v == 0x90 || v == 0xab }
  predicate IsRead(v: nat) { IsPlainRead(v) || IsFastRead(v) || IsDualRead(v) || IsQuadRead(v) }
  predicate IsExtendWrite(v: nat) { v == 0x17 || v == 0xC5 }
  predicate IsExtendRead(v: nat) { v == 0x16 || v == 0xC8 }

  predicate IsFourByte(v: nat) {
    v == 0x12 || v == 0x3e || v == 0x34 || v == 0x13 || v == 0xec || v == 0x21 || v == 0x5c || v == 0xdc ||
    v == 0x0c || v == 0x3c || v == 0x6c || v == 0xbc
  }

  /** get_addr_length. */
  function AddrLength(p: Part, r: Regs): (n: nat)
    ensures 2 <= n <= 4
  {
    if p.eepromOnly then 2 else if IsFourByte(r.cmd) || r.fourByte then 4 else 3
  }

  /** Dummy bytes of a fast read. */
  function FastDummies(p: Part, r: Regs): nat
    requires |p.id| == 6
  {
    match MakerOf(p)
    case Winbond => 8
    case Numonyx => r.vcfg / 16 % 16
    case Macronix => if r.vcfg / 64 % 4 == 1 then 6 else 8
    case _ => 0
  }

  function DualDummies(p: Part, r: Regs): nat
    requires |p.id| == 6
  {
    match MakerOf(p)
    case Winbond => 1
    case Spansion => 1
    case Numonyx => r.vcfg / 16 % 16
    case Macronix => if r.vcfg / 64 % 4 == 1 then 6 else if r.vcfg / 64 % 4 == 2 then 8 else 4
    case _ => 0
  }

  function QuadDummies(p: Part, r: Regs): nat
    requires |p.id| == 6
  {
    match MakerOf(p)
    case Winbond => 5
    case Spansion => 1
    case Numonyx => r.vcfg / 16 % 16
    case Macronix => if r.vcfg / 64 % 4 == 1 then 4 else if r.vcfg / 64 % 4 == 2 then 8 else 6
    case _ => 0
  }

  function Collect(r: Regs, needed: nat): Regs {
    r.(needed := needed, pos := 0, len := 0, state := Collecting)
  }

  function Answer(r: Regs, bytes: seq<Byte>, readLoop: bool): Regs
    requires |r.data| == BUFFER && |bytes| <= BUFFER
  {
    r.(data := bytes + r.data[|bytes|..], pos := 0, len := |bytes|, readLoop := readLoop, state := ReadingData)
  }

  function Bit(b: bool): nat {
    if b then 1 else 0
  }

  /** reset_memory. The Spansion configuration registers are never written and read as zero. */
  function ResetMemory(p: Part, r: Regs): Regs
    requires |p.id| == 6
  {
    var c := r.(cmd := 0, addr := 0, ear := 0, fourByte := false, len := 0, needed := 0, pos := 0, state := Idle,
                writeEnable := false, resetEnable := false, quad := false);
    match MakerOf(p)
    case Numonyx =>
      c.(vcfg := 3 + (if r.nvcfg / 512 % 8 != 7 then 8 else 0) + 16 * (r.nvcfg / 4096 % 16),
         evcfg := 31 + 64 * (r.nvcfg / 4 % 2) + 128 * (r.nvcfg / 8 % 2),
         fourByte := r.nvcfg % 2 == 0,
         ear := if r.nvcfg / 2 % 2 == 0 then (p.size / MAX_3BYTES + 255) % 256 else 0)
    case Macronix => c.(vcfg := 7)
    case _ => c
  }

  /** The commands that go on to collect bytes: an address, dummy bytes or a register value. */
  predicate IsCollecting(v: nat) {
    IsErase(v) || IsRead(v) || IsProgram(v) || IsReadId(v) || v == WRSR || IsExtendWrite(v) ||
    v == 0xB1 || v == 0x81 || v == 0x61
  }

  function DecodeCollecting(p: Part, r: Regs, v: Byte): (d: Regs)
    requires ValidPart(p) && |r.data| == BUFFER
    ensures d.data == r.data && d.addr == r.addr
  {
    if IsErase(v) || IsPlainRead(v) || IsProgram(v) || IsReadId(v) then Collect(r, AddrLength(p, r))
    else if IsFastRead(v) then Collect(r, AddrLength(p, r) + FastDummies(p, r))
    else if IsDualRead(v) then Collect(r, AddrLength(p, r) + DualDummies(p, r))
    else if IsQuadRead(v) then Collect(r, AddrLength(p, r) + QuadDummies(p, r))
    else if !r.writeEnable then r
    else if v == WRSR then
      match MakerOf(p)
      case Spansion => r.(needed := 2, state := Collecting, pos := 0)
      case Macronix => r.(needed := 2, state := CollectingVarLen, pos := 0)
      case _ => r.(needed := 1, state := Collecting, pos := 0)
    else if v == 0xB1 then if MakerOf(p) == Numonyx then Collect(r, 2) else r
    else Collect(r, 1)
  }

  /** The commands that answer with bytes. */
  predicate IsAnswering(v: nat) {
    v == RDSR || v == 0x70 || v == 0x9f || v == 0x15 || IsExtendRead(v) || v == 0xB5 || v == 0x85 || v == 0x65
  }

  function AnswerBytes(p: Part, r: Regs, v: Byte): (bytes: seq<Byte>)
    requires ValidPart(p)
    ensures |bytes| <= 6
  {
    if v == RDSR then [2 * Bit(r.writeEnable) + (if MakerOf(p) == Macronix then 64 * Bit(r.quad) else 0)]
    else if v == 0x70 then [128 + Bit(r.fourByte)]
    else if v == 0x9f then p.id[..p.idLen]
    else if v == 0x15 then
      var low: int := r.vcfg % 256;
      [if r.fourByte && low / 32 % 2 == 0 then (low + 32) % 256 else low]
    else if IsExtendRead(v) then [r.ear]
    else if v == 0xB5 then [r.nvcfg % 256, r.nvcfg / 256 % 256]
    else if v == 0x85 then [r.vcfg % 256]
    else [r.evcfg % 256]
  }

  function DecodeSwitch(p: Part, r: Regs, v: Byte): (d: Regs)
    requires ValidPart(p) && |r.data| == BUFFER
    ensures |d.data| == BUFFER && (d.addr == r.addr || d.addr == 0)
  {
    if v == WRDI then r.(writeEnable := false)
    else if v == WREN then r.(writeEnable := true)
    else if v == 0xB7 then r.(fourByte := true)
    else if v == 0xE9 then r.(fourByte := false)
    else if v == 0x66 then r.(resetEnable := true)
    else if v == 0x99 then if r.resetEnable then ResetMemory(p, r) else r
    else if v == 0x35 then
      match MakerOf(p)
      case Spansion => Answer(r, [2 * Bit(r.quad)], r.readLoop)
      case Macronix => r.(quad := true)
      case _ => r
    else if v == 0xf5 then r.(quad := false)
    else r
  }

  /** decode_new_cmd, up to the erasure of a bulk erase. */
  function Decode(p: Part, before: Regs, v: Byte): (r: Regs)
    requires ValidPart(p) && |before.data| == BUFFER
    ensures |r.data| == BUFFER && (r.addr == before.addr || r.addr == 0)
  {
    var r := before.(cmd := v, resetEnable := v == 0x99 && before.resetEnable);
    if IsCollecting(v) then DecodeCollecting(p, r, v)
    else if IsAnswering(v) then Answer(r, AnswerBytes(p, r, v), r.readLoop || v == RDSR || v == 0x70)
    else DecodeSwitch(p, r, v)
  }

  /** The address in the first `n` collected bytes, most significant first. */
  function Assemble(start: nat, data: seq<Byte>, n: nat): nat
    requires n <= |data|
  {
    if n == 0 then start else 256 * Assemble(start, data, n - 1) + data[n - 1]
  }

  function CollectedAddress(p: Part, r: Regs): (a: nat)
    requires ValidPart(p) && |r.data| == BUFFER
    ensures a < p.size
  {
    var n := AddrLength(p, r);
    And(Assemble(if n == 3 then r.ear else 0, r.data, n), p.size - 1)
  }

  /** The register effect of a status register write. */
  function WriteStatus(p: Part, r: Regs): (d: Regs)
    requires ValidPart(p) && |r.data| == BUFFER
    ensures d.data == r.data && d.addr == r.addr
  {
    var c := r.(writeEnable := false);
    match MakerOf(p)
    case Spansion => c.(quad := r.data[1] / 2 % 2 == 1)
    case Macronix =>
      var m := c.(quad := r.data[0] / 64 % 2 == 1);
      if r.len > 1 then m.(vcfg := r.data[1], fourByte := r.data[1] / 32 % 2 == 1) else m
    case _ => c
  }

  /** complete_collecting_data, up to the erasure of an erase command. */
  function Complete(p: Part, before: Regs): (r: Regs)
    requires ValidPart(p) && |before.data| == BUFFER
    ensures |r.data| == BUFFER && r.addr < p.size
  {
    var r := before.(addr := CollectedAddress(p, before), state := Idle);
    var v := r.cmd;
    if IsProgram(v) then r.(state := PageProgram)
    else if IsRead(v) then r.(state := Reading)
    else if v == WRSR then WriteStatus(p, r)
    else if IsExtendWrite(v) then r.(ear := r.data[0])
    else if v == 0xB1 then var low: nat, high: nat := r.data[0], r.data[1]; r.(nvcfg := low + 256 * high)
    else if v == 0x81 then r.(vcfg := r.data[0])
    else if v == 0x61 then r.(evcfg := r.data[0])
    else if IsReadId(v) && MakerOf(p) == Sst && r.addr <= 1 then
      Answer(r, if r.addr == 1 then [p.id[2], p.id[0]] else [p.id[0], p.id[2]], true)
    else r
  }

  /** The area flash_erase clears for a command, if any: an offset and a length. */
  datatype Area = NoArea | Area(offset: nat, len: nat)

  function EraseArea(p: Part, cmd: nat, offset: nat): Area
    requires ValidPart(p)
  {
    if Is4K(cmd) then Area(offset, 4096)
    else if Is32K(cmd) then Area(offset, 32768)
    else if IsSector(cmd) then Area(offset, p.sectorSize)
    else if cmd == DIE_ERASE && p.dies > 0 then
      var len := p.size / p.dies;
      if len == 0 then NoArea else Area(offset - offset % len, len)
    else NoArea
  }

  ghost predicate Fits(p: Part, a: Area) {
    a.Area? ==> a.offset + a.len <= p.size
  }

  /** Erase commands at an address that is a multiple of the erased length stay inside the array. */
  lemma AlignedEraseFits(p: Part, cmd: nat, offset: nat)
    requires ValidPart(p) && offset < p.size
    requires var a := EraseArea(p, cmd, offset); a.Area? ==> p.size % a.len == 0 && offset % a.len == 0
    ensures Fits(p, EraseArea(p, cmd, offset))
  {
    var a := EraseArea(p, cmd, offset);
    if a.Area? { NextMultiple(offset, a.len, p.size); }
  }

  lemma NextMultiple(a: nat, m: nat, n: nat)
    requires m > 0 && a % m == 0 && n % m == 0 && a < n
    ensures a + m <= n
  {
    var x, y := a / m, n / m;
    assert a == x * m && n == y * m;
    assert x < y;
    assert (x + 1) * m <= y * m;
  }

  // ---------------------------------------------------------------------------------------------------------------
  // Storage and backing file

  /** The chip: its registers, the storage, the backing file (as long as the storage) and the page that is written to
      the storage but not yet to the file. */
  datatype Flash = Flash(regs: Regs, storage: seq<Byte>, file: seq<Byte>, dirty: int)

  ghost predicate Valid(p: Part, f: Flash) {
    && ValidPart(p) && |f.regs.data| == BUFFER && f.regs.addr < p.size
    && |f.storage| == p.size && |f.file| == p.size
    && -1 <= f.dirty < p.size / PAGE_SIZE
  }

  /** `t` with the area from `lo` to `hi` taken from `s`. */
  function CopyArea(t: seq<Byte>, s: seq<Byte>, lo: nat, hi: nat): seq<Byte>
    requires lo <= hi <= |s| == |t|
  {
    t[..lo] + s[lo..hi] + t[hi..]
  }

  function Filled(n: nat, b: Byte): (s: seq<Byte>)
    ensures |s| == n && forall i :: 0 <= i < n ==> s[i] == b
  {
    seq(n, _ => b)
  }

  /** flash_erase: clears an area and writes it to the file at once; nothing happens while writing is disabled. */
  function EraseNow(p: Part, f: Flash, a: Area): Flash
    requires Valid(p, f) && Fits(p, a)
  {
    if a.NoArea? || !f.regs.writeEnable then f
    else
      var hi := a.offset + a.len;
      var storage := f.storage[..a.offset] + Filled(a.len, 0xff) + f.storage[hi..];
      f.(storage := storage, file := CopyArea(f.file, storage, a.offset, hi))
  }

  /** flash_sync_dirty: writes the dirty page to the file unless it is also the new one. */
  function SyncDirty(p: Part, f: Flash, page: int): Flash
    requires Valid(p, f)
  {
    if f.dirty >= 0 && f.dirty != page then
      PageInside(p, f.dirty);
      f.(file := CopyArea(f.file, f.storage, f.dirty * PAGE_SIZE, (f.dirty + 1) * PAGE_SIZE), dirty := page)
    else f
  }

  lemma PageInside(p: Part, page: nat)
    requires ValidPart(p) && page < p.size / PAGE_SIZE
    ensures (page + 1) * PAGE_SIZE <= p.size
  {}

  /** flash_write8: programming clears bits, or overwrites an EEPROM; the page written before is synced first. */
  function Write8(p: Part, f: Flash, b: Byte): Flash
    requires Valid(p, f)
  {
    var a := f.regs.addr;
    var g := f.(storage := f.storage[a := if p.eeprom then b else And(f.storage[a], b)]);
    SyncDirty(p, g, a / PAGE_SIZE).(dirty := a / PAGE_SIZE)
  }

  function NextAddr(p: Part, r: Regs): Regs
    requires p.size > 0
  {
    r.(addr := And(r.addr + 1, p.size - 1))
  }

  /** The erase a byte sets off when it completes a command. */
  function Triggered(p: Part, r: Regs, tx: Byte): Area
    requires ValidPart(p) && |r.data| == BUFFER
  {
    match r.state
    case Idle => if IsBulk(tx) then Area(0, p.size) else NoArea
    case Collecting => CompletedArea(p, r, tx)
    case CollectingVarLen => CompletedArea(p, r, tx)
    case _ => NoArea
  }

  function CompletedArea(p: Part, r: Regs, tx: Byte): Area
    requires ValidPart(p) && |r.data| == BUFFER
  {
    if r.len < BUFFER && r.len + 1 == r.needed then
      EraseArea(p, r.cmd, CollectedAddress(p, r.(data := r.data[r.len := tx], len := r.len + 1)))
    else NoArea
  }

  /** m25p80_transfer8: one byte in, one byte out. */
  function Transfer(p: Part, f: Flash, tx: Byte): (Byte, Flash)
    requires Valid(p, f) && Fits(p, Triggered(p, f.regs, tx))
  {
    var r := f.regs;
    match r.state
    case PageProgram => var g := Write8(p, f, tx); (0, g.(regs := NextAddr(p, r)))
    case Reading => (f.storage[r.addr], f.(regs := NextAddr(p, r)))
    case Collecting => (0, TakeByte(p, f, tx))
    case CollectingVarLen => (0, TakeByte(p, f, tx))
    case ReadingData =>
      if r.pos >= BUFFER then (0, f.(regs := r.(len := 0, pos := 0, state := Idle)))
      else if r.pos + 1 == r.len then
        (r.data[r.pos], f.(regs := r.(pos := 0, state := if r.readLoop then ReadingData else Idle)))
      else (r.data[r.pos], f.(regs := r.(pos := r.pos + 1)))
    case Idle =>
      var g := f.(regs := Decode(p, r, tx));
      (0, if IsBulk(tx) then EraseNow(p, g, Area(0, p.size)) else g)
  }

  function TakeByte(p: Part, f: Flash, tx: Byte): Flash
    requires Valid(p, f) && Fits(p, CompletedArea(p, f.regs, tx))
  {
    var r := f.regs;
    if r.len >= BUFFER then f.(regs := r.(len := 0, pos := 0, state := Idle))
    else
      var c := r.(data := r.data[r.len := tx], len := r.len + 1);
      if c.len != c.needed then f.(regs := c)
      else EraseNow(p, f.(regs := Complete(p, c)), EraseArea(p, c.cmd, CollectedAddress(p, c)))
  }

  /** m25p80_cs with select: a command of variable length is completed, the chip goes idle and the dirty page is
      synced. */
  function Select(p: Part, f: Flash): Flash
    requires Valid(p, f) && Fits(p, SelectArea(p, f.regs))
  {
    var g :=
      if f.regs.state != CollectingVarLen then f
      else EraseNow(p, f.(regs := Complete(p, f.regs)), SelectArea(p, f.regs));
    var h := SyncDirty(p, g.(regs := g.regs.(len := 0, pos := 0, state := Idle)), -1);
    h.(regs := h.regs.(readLoop := false))
  }

  function SelectArea(p: Part, r: Regs): Area
    requires ValidPart(p) && |r.data| == BUFFER
  {
    if r.state == CollectingVarLen then EraseArea(p, r.cmd, CollectedAddress(p, r)) else NoArea
  }
}
