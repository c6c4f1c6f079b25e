/** The virtual EEPROM kept in two flash pages (pxbee/drivers/eeprom/veeprom.c).

    Each block starts with the letters "VEEP", an active byte and an unused checksum byte;
    506 data bytes follow. A write that only clears bits is done in place; any other write
    copies the whole image to the other block, marks that one active and erases the old one.

    The methods issue flash commands; the functions beside them give, for any flash contents
    whatever, exactly which commands those are. */
module VirtualEeprom {
  import opened Bits
  import opened Flash
  import opened Words

  const NUM_BLOCKS: nat := 2
  const MARK: seq<Byte> := [0x56, 0x45, 0x45, 0x50]
  const MARK_LEN: nat := 4
  const ACTIVE_OFF: nat := 4
  const DATA_OFF: nat := 6
  const DATA_LEN: nat := 506
  const ACTIVE: Byte := 0x77

  /** A block index other than 0, the out-of-range index 2 included, means the second page. */
  function BlockAddr(block: nat): nat { if block == 0 then 0 else PAGE_SIZE }

  function PageOf(block: nat): nat { if block == 0 then 0 else 1 }

  /** Logical negation of a block index, as C computes it. */
  function Other(block: nat): nat { if block == 0 then 1 else 0 }

  /** Conversion of an unsigned 16-bit sum to a signed 16-bit integer. */
  function ToInt16(n: nat): int {
    var w := n % WORD16;
    if w < 0x8000 then w else w - WORD16
  }

  predicate Marked(m: seq<Byte>, block: nat)
    requires |m| == FLASH_SIZE
  {
    m[BlockAddr(block)..BlockAddr(block) + MARK_LEN] == MARK
  }

  predicate IsActive(m: seq<Byte>, block: nat)
    requires |m| == FLASH_SIZE
  {
    m[BlockAddr(block) + ACTIVE_OFF] == ACTIVE
  }

  /** The 506 data bytes of a block. */
  function Data(m: seq<Byte>, block: nat): (d: seq<Byte>)
    requires |m| == FLASH_SIZE
    ensures |d| == DATA_LEN
  {
    m[BlockAddr(block) + DATA_OFF..BlockAddr(block) + PAGE_SIZE]
  }

  /** Erasing a block: one page erase, then the four mark bytes. An out-of-range index
      erases the first block, although BlockAddr takes it for the second. */
  function EraseCommands(block: nat): (cs: seq<Command>)
    ensures |cs| == 1 + MARK_LEN
  {
    var b := if block >= NUM_BLOCKS then 0 else block;
    [ErasePage(PageOf(b))] + Programs(BlockAddr(b), MARK)
  }

  /** Programming the active byte. Here it is index 2 that still means the second page. */
  function MarkCommand(block: nat): Command {
    var b := if block > NUM_BLOCKS then 0 else block;
    Program(BlockAddr(b) + ACTIVE_OFF, ACTIVE)
  }

  function RepairCommands(m: seq<Byte>, block: nat): seq<Command>
    requires |m| == FLASH_SIZE
  {
    if Marked(m, block) then [] else EraseCommands(block)
  }

  /** The commands issued while looking for the active block, starting at `block`. */
  function ScanCommands(m: seq<Byte>, block: nat): seq<Command>
    requires |m| == FLASH_SIZE
    decreases NUM_BLOCKS - block
  {
    if block >= NUM_BLOCKS then []
    else
      var repair := RepairCommands(m, block);
      var m' := Run(m, repair);
      if IsActive(m', block) then repair else repair + ScanCommands(m', block + 1)
  }

  /** The block that search finds; NUM_BLOCKS when no block is active. */
  function ActiveBlock(m: seq<Byte>, block: nat): (b: nat)
    requires |m| == FLASH_SIZE && block <= NUM_BLOCKS
    ensures b <= NUM_BLOCKS
    decreases NUM_BLOCKS - block
  {
    if block >= NUM_BLOCKS then block
    else
      var m' := Run(m, RepairCommands(m, block));
      if IsActive(m', block) then block else ActiveBlock(m', block + 1)
  }

  function InitCommands(m: seq<Byte>, block: nat): seq<Command>
    requires |m| == FLASH_SIZE
    decreases NUM_BLOCKS - block
  {
    if block >= NUM_BLOCKS then []
    else
      var repair := RepairCommands(m, block);
      repair + InitCommands(Run(m, repair), block + 1)
  }

  /** The number of bytes a read or a write of `len` bytes at `offset` really covers. */
  function Clamp(offset: nat, len: nat): (n: nat)
    requires offset < DATA_LEN
    ensures n <= len && offset + n <= DATA_LEN
  {
    if DATA_LEN - offset > len then len else DATA_LEN - offset
  }

  /** Every bit set in `data` is already set in the bytes of `m` that start at `addr`. */
  predicate OnlyClears(m: seq<Byte>, addr: nat, data: seq<Byte>)
    requires addr + |data| <= |m|
  {
    forall i :: 0 <= i < |data| ==> data[i] & !m[addr + i] == 0
  }

  /** What the copy branch programs into the other block. The upper limit of the new bytes is
      `offset + len`, not the clamped length, and it is a signed 16-bit number. */
  function CopyImage(m: seq<Byte>, act: nat, buf: seq<Byte>, offset: nat, len: nat): (d: seq<Byte>)
    requires |m| == FLASH_SIZE && offset < DATA_LEN && len < WORD16 && Clamp(offset, len) <= |buf|
    ensures |d| == DATA_LEN
  {
    seq(DATA_LEN, i requires 0 <= i < DATA_LEN =>
      if i < offset || i >= ToInt16(offset + len) then Data(m, act)[i] else buf[i - offset])
  }

  /** True when a write of these bytes at this offset is done in place. */
  predicate InPlace(m: seq<Byte>, buf: seq<Byte>, offset: nat, len: nat)
    requires |m| == FLASH_SIZE && offset < DATA_LEN && Clamp(offset, len) <= |buf|
  {
    var m1 := Run(m, ScanCommands(m, 0));
    OnlyClears(m1, BlockAddr(ActiveBlock(m, 0)) + DATA_OFF + offset, buf[..Clamp(offset, len)])
  }

  function InPlaceCommands(act: nat, buf: seq<Byte>, offset: nat): (cs: seq<Command>)
    ensures |cs| == |buf| + 1
  {
    Programs(BlockAddr(act) + DATA_OFF + offset, buf) + [MarkCommand(act)]
  }

  function CopyCommands(act: nat, image: seq<Byte>): (cs: seq<Command>)
    ensures |cs| == |image| + 2 + MARK_LEN
  {
    Programs(BlockAddr(Other(act)) + DATA_OFF, image)
    + [MarkCommand(Other(act))]
    + EraseCommands(act)
  }

  /** Everything a write does to the flash, in order. */
  function WriteCommands(m: seq<Byte>, buf: seq<Byte>, offset: nat, len: nat): seq<Command>
    requires |m| == FLASH_SIZE && len < WORD16
    requires offset < DATA_LEN ==> Clamp(offset, len) <= |buf|
  {
    if offset >= DATA_LEN then []
    else
      var scan := ScanCommands(m, 0);
      var act := ActiveBlock(m, 0);
      scan + if InPlace(m, buf, offset, len)
             then InPlaceCommands(act, buf[..Clamp(offset, len)], offset)
             else CopyCommands(act, CopyImage(Run(m, scan), act, buf, offset, len))
  }

  /** What reading the whole EEPROM returns. */
  function ReadImage(m: seq<Byte>): (d: seq<Byte>)
    requires |m| == FLASH_SIZE
    ensures |d| == DATA_LEN
  {
    Data(Run(m, ScanCommands(m, 0)), ActiveBlock(m, 0))
  }

  method EraseBlock(flash: FlashDevice, block: nat) returns (ret: int)
    requires flash.Valid()
    modifies flash`log, flash.cells
    ensures flash.cells[..] == Run(old(flash.cells[..]), EraseCommands(block))
    ensures flash.log == old(flash.log) + EraseCommands(block)
    ensures ret == MARK_LEN
  {
    var b := block;
    if b >= NUM_BLOCKS {
      b := 0;
    }
    ghost var m := flash.cells[..];
    ret := flash.ErasePageAt(PageOf(b));
    RunSnoc(m, [], ErasePage(PageOf(b)));
    assert [] + [ErasePage(PageOf(b))] == [ErasePage(PageOf(b))];
    if ret == 0 {
      ret := flash.ProgramBuffer(BlockAddr(b), MARK);
    }
    RunConcat(m, [ErasePage(PageOf(b))], Programs(BlockAddr(b), MARK));
  }

  method MarkActive(flash: FlashDevice, block: nat)
    requires flash.Valid()
    modifies flash`log, flash.cells
    ensures flash.cells[..] == Step(old(flash.cells[..]), MarkCommand(block))
    ensures flash.log == old(flash.log) + [MarkCommand(block)]
  {
    var b := block;
    if b > NUM_BLOCKS {
      b := 0;
    }
    var _ := flash.ProgramByte(BlockAddr(b) + ACTIVE_OFF, ACTIVE);
  }

  /** Erases the block again when its mark is not complete; otherwise keeps the `previous` result. */
  method RepairBlock(flash: FlashDevice, block: nat, previous: int) returns (ret: int)
    requires flash.Valid() && block < NUM_BLOCKS
    modifies flash`log, flash.cells
    ensures flash.cells[..] == Run(old(flash.cells[..]), RepairCommands(old(flash.cells[..]), block))
    ensures flash.log == old(flash.log) + RepairCommands(old(flash.cells[..]), block)
    ensures ret == if Marked(old(flash.cells[..]), block) then previous else MARK_LEN
  {
    ret := previous;
    if flash.cells[BlockAddr(block)..BlockAddr(block) + MARK_LEN] != MARK {
      ret := EraseBlock(flash, block);
    }
  }

  method GetActiveBlock(flash: FlashDevice) returns (block: nat)
    requires flash.Valid()
    modifies flash`log, flash.cells
    ensures block == ActiveBlock(old(flash.cells[..]), 0)
    ensures flash.cells[..] == Run(old(flash.cells[..]), ScanCommands(old(flash.cells[..]), 0))
    ensures flash.log == old(flash.log) + ScanCommands(old(flash.cells[..]), 0)
  {
    hide Run, EraseCommands, Marked, RepairCommands, IsActive, ScanCommands, ActiveBlock;
    block := 0;
    ghost var m0 := flash.cells[..];
    ghost var done: seq<Command> := [];
    RunNone(m0);
    while block < NUM_BLOCKS
      invariant block <= NUM_BLOCKS
      invariant flash.log == old(flash.log) + done
      invariant flash.cells[..] == Run(m0, done)
      invariant ScanCommands(m0, 0) == done + ScanCommands(flash.cells[..], block)
      invariant ActiveBlock(m0, 0) == ActiveBlock(flash.cells[..], block)
    {
      ghost var repair := RepairCommands(flash.cells[..], block);
      RunConcat(m0, done, repair);
      ScanStep(flash.cells[..], block);
      var _ := RepairBlock(flash, block, 0);
      ghost var rest := ScanCommands(flash.cells[..], block + 1);
      assert done + (repair + rest) == (done + repair) + rest;
      done := done + repair;
      IsActiveByte(flash.cells[..], block);
      if flash.cells[BlockAddr(block) + ACTIVE_OFF] == ACTIVE {
        return;
      }
      block := block + 1;
    }
    ScanEnd(flash.cells[..]);
    assert done + [] == done;
  }

  lemma IsActiveByte(m: seq<Byte>, block: nat)
    requires |m| == FLASH_SIZE
    ensures IsActive(m, block) == (m[BlockAddr(block) + ACTIVE_OFF] == ACTIVE)
  {
  }

  lemma ScanStep(m: seq<Byte>, block: nat)
    requires |m| == FLASH_SIZE && block < NUM_BLOCKS
    ensures var repair := RepairCommands(m, block);
            var m' := Run(m, repair);
            if IsActive(m', block)
            then ScanCommands(m, block) == repair && ActiveBlock(m, block) == block
            else ScanCommands(m, block) == repair + ScanCommands(m', block + 1)
                 && ActiveBlock(m, block) == ActiveBlock(m', block + 1)
  {
    hide Run, RepairCommands, IsActive;
  }

  lemma ScanEnd(m: seq<Byte>)
    requires |m| == FLASH_SIZE
    ensures ScanCommands(m, NUM_BLOCKS) == [] && ActiveBlock(m, NUM_BLOCKS) == NUM_BLOCKS
  {
  }

  method Init(flash: FlashDevice) returns (ret: int)
    requires flash.Valid()
    modifies flash`log, flash.cells
    ensures flash.cells[..] == Run(old(flash.cells[..]), InitCommands(old(flash.cells[..]), 0))
    ensures flash.log == old(flash.log) + InitCommands(old(flash.cells[..]), 0)
    ensures ret == if InitCommands(old(flash.cells[..]), 0) == [] then 0 else MARK_LEN
  {
    hide Run, EraseCommands, Marked, RepairCommands, InitCommands;
    var block := 0;
    ret := 0;
    ghost var m0 := flash.cells[..];
    ghost var done: seq<Command> := [];
    RunNone(m0);
    while block < NUM_BLOCKS
      invariant block <= NUM_BLOCKS
      invariant flash.log == old(flash.log) + done
      invariant flash.cells[..] == Run(m0, done)
      invariant InitCommands(m0, 0) == done + InitCommands(flash.cells[..], block)
      invariant ret == if done == [] then 0 else MARK_LEN
    {
      ghost var repair := RepairCommands(flash.cells[..], block);
      RunConcat(m0, done, repair);
      InitStep(flash.cells[..], block);
      ret := RepairBlock(flash, block, ret);
      ghost var rest := InitCommands(flash.cells[..], block + 1);
      assert done + (repair + rest) == (done + repair) + rest;
      done := done + repair;
      block := block + 1;
    }
    InitEnd(flash.cells[..]);
    assert done + [] == done;
  }

  lemma InitStep(m: seq<Byte>, block: nat)
    requires |m| == FLASH_SIZE && block < NUM_BLOCKS
    ensures var repair := RepairCommands(m, block);
            InitCommands(m, block) == repair + InitCommands(Run(m, repair), block + 1)
    ensures (RepairCommands(m, block) == []) == Marked(m, block)
  {
    hide Run, Marked;
  }

  lemma InitEnd(m: seq<Byte>)
    requires |m| == FLASH_SIZE
    ensures InitCommands(m, NUM_BLOCKS) == []
  {
  }

  lemma SliceOfSlice(m: seq<Byte>, lo: nat, hi: nat, from: nat, to: nat)
    requires lo <= hi <= |m| && from <= to <= hi - lo
    ensures m[lo..hi][from..to] == m[lo + from..lo + to]
  {
    forall i | 0 <= i < to - from
      ensures m[lo..hi][from..to][i] == m[lo + from..lo + to][i]
    {
    }
  }

  lemma ReadImageSlice(m: seq<Byte>, offset: nat, n: nat)
    requires |m| == FLASH_SIZE && offset + n <= DATA_LEN
    ensures var now := Run(m, ScanCommands(m, 0));
            var addr := BlockAddr(ActiveBlock(m, 0)) + DATA_OFF + offset;
            ReadImage(m)[offset..offset + n] == now[addr..addr + n]
  {
    hide Run, ScanCommands, ActiveBlock;
    var base := BlockAddr(ActiveBlock(m, 0));
    SliceOfSlice(Run(m, ScanCommands(m, 0)), base + DATA_OFF, base + PAGE_SIZE, offset, offset + n);
  }

  /** Reads up to `len` bytes at `offset` into `buf`. */
  method Read(flash: FlashDevice, buf: array<Byte>, offset: nat, len: nat) returns (ret: int)
    requires flash.Valid() && buf != flash.cells && len < WORD16
    requires offset < DATA_LEN ==> Clamp(offset, len) <= buf.Length
    modifies flash`log, flash.cells, buf
    ensures offset >= DATA_LEN ==>
              && ret == -EINVAL && flash.log == old(flash.log)
              && flash.cells[..] == old(flash.cells[..]) && buf[..] == old(buf[..])
    ensures offset < DATA_LEN ==>
              && ret == Clamp(offset, len)
              && buf[..ret] == ReadImage(old(flash.cells[..]))[offset..offset + ret]
              && buf[ret..] == old(buf[ret..])
              && flash.cells[..] == Run(old(flash.cells[..]), ScanCommands(old(flash.cells[..]), 0))
              && flash.log == old(flash.log) + ScanCommands(old(flash.cells[..]), 0)
  {
    hide Run, ScanCommands, ActiveBlock, Data, ReadImage;
    if offset >= DATA_LEN {
      return -EINVAL;
    }
    var toRead := DATA_LEN - offset;
    if toRead > len {
      toRead := len;
    }
    var block := GetActiveBlock(flash);
    CopyOut(flash, BlockAddr(block) + DATA_OFF + offset, buf, toRead);
    ReadImageSlice(old(flash.cells[..]), offset, toRead);
    return toRead;
  }

  /** The byte loop of a read. */
  method CopyOut(flash: FlashDevice, addr: nat, buf: array<Byte>, toRead: nat)
    requires flash.Valid() && buf != flash.cells && toRead <= buf.Length && addr + toRead <= FLASH_SIZE
    modifies buf
    ensures buf[..toRead] == flash.cells[addr..addr + toRead]
    ensures buf[toRead..] == old(buf[toRead..])
  {
    var read := 0;
    while read < toRead
      invariant 0 <= read <= toRead
      invariant forall i :: 0 <= i < read ==> buf[i] == flash.cells[addr + i]
      invariant buf[toRead..] == old(buf[toRead..])
    {
      buf[read] := flash.cells[addr + read];
      read := read + 1;
    }
  }

  method Write(flash: FlashDevice, buf: seq<Byte>, offset: nat, len: nat) returns (ret: int)
    requires flash.Valid() && len < WORD16
    requires offset < DATA_LEN ==> Clamp(offset, len) <= |buf|
    modifies flash`log, flash.cells
    ensures ret == if offset >= DATA_LEN then -EINVAL else Clamp(offset, len)
    ensures flash.log == old(flash.log) + WriteCommands(old(flash.cells[..]), buf, offset, len)
    ensures flash.cells[..] == Run(old(flash.cells[..]), WriteCommands(old(flash.cells[..]), buf, offset, len))
  {
    hide Run, ScanCommands, ActiveBlock, EraseCommands, CopyCommands, InPlaceCommands, CopyImage, OnlyClears;
    ghost var m := flash.cells[..];
    if offset >= DATA_LEN {
      RunNone(m);
      return -EINVAL;
    }
    var toWrite := DATA_LEN - offset;
    if toWrite > len {
      toWrite := len;
    }
    var act := GetActiveBlock(flash);
    ghost var m1 := flash.cells[..];
    ghost var scan := ScanCommands(m, 0);
    var newBlock := ExceedsInPlace(flash, BlockAddr(act) + DATA_OFF + offset, buf, toWrite);
    if !newBlock {
      WriteInPlace(flash, act, buf[..toWrite], offset);
      RunConcat(m, scan, InPlaceCommands(act, buf[..toWrite], offset));
    } else {
      WriteCopy(flash, act, buf, offset, len);
      RunConcat(m, scan, CopyCommands(act, CopyImage(m1, act, buf, offset, len)));
    }
    ret := toWrite;
  }

  method WriteInPlace(flash: FlashDevice, act: nat, buf: seq<Byte>, offset: nat)
    requires flash.Valid() && act <= NUM_BLOCKS && offset + |buf| <= DATA_LEN
    modifies flash`log, flash.cells
    ensures flash.log == old(flash.log) + InPlaceCommands(act, buf, offset)
    ensures flash.cells[..] == Run(old(flash.cells[..]), InPlaceCommands(act, buf, offset))
  {
    var addr := BlockAddr(act) + DATA_OFF + offset;
    ghost var m := flash.cells[..];
    var written := 0;
    while written < |buf|
      invariant written <= |buf|
      invariant flash.cells[..] == Run(m, Programs(addr, buf[..written]))
      invariant flash.log == old(flash.log) + Programs(addr, buf[..written])
    {
      var _ := flash.ProgramByte(addr + written, buf[written]);
      ProgramsSnoc(addr, buf, written);
      RunSnoc(m, Programs(addr, buf[..written]), Program(addr + written, buf[written]));
      written := written + 1;
    }
    assert buf[..written] == buf;
    MarkActive(flash, act);
    RunSnoc(m, Programs(addr, buf), MarkCommand(act));
  }

  method WriteCopy(flash: FlashDevice, act: nat, buf: seq<Byte>, offset: nat, len: nat)
    requires flash.Valid() && act <= NUM_BLOCKS
    requires offset < DATA_LEN && len < WORD16 && Clamp(offset, len) <= |buf|
    modifies flash`log, flash.cells
    ensures var m := old(flash.cells[..]);
            var cs := CopyCommands(act, CopyImage(m, act, buf, offset, len));
            flash.cells[..] == Run(m, cs) && flash.log == old(flash.log) + cs
  {
    ghost var m := flash.cells[..];
    ghost var ps := Programs(BlockAddr(Other(act)) + DATA_OFF, CopyImage(m, act, buf, offset, len));
    CopyOver(flash, act, buf, offset, len);
    MarkActive(flash, Other(act));
    RunSnoc(m, ps, MarkCommand(Other(act)));
    var _ := EraseBlock(flash, act);
    RunConcat(m, ps + [MarkCommand(Other(act))], EraseCommands(act));
  }

  /** The check that decides between the two branches of a write. */
  method ExceedsInPlace(flash: FlashDevice, addr: nat, buf: seq<Byte>, toWrite: nat) returns (exceeds: bool)
    requires flash.Valid() && toWrite <= |buf| && addr + toWrite <= FLASH_SIZE
    ensures exceeds == !OnlyClears(flash.cells[..], addr, buf[..toWrite])
  {
    var i := 0;
    while i < toWrite
      invariant i <= toWrite
      invariant forall k :: 0 <= k < i ==> buf[k] & !flash.cells[addr + k] == 0
    {
      if buf[i] & !flash.cells[addr + i] != 0 {
        assert buf[..toWrite][i] & !flash.cells[..][addr + i] != 0;
        return true;
      }
      i := i + 1;
    }
    return false;
  }

  /** While one block is being programmed the other still reads as it did. */
  lemma SourceUntouched(m: seq<Byte>, act: nat, image: seq<Byte>, idx: nat)
    requires |m| == FLASH_SIZE && |image| == DATA_LEN && idx < DATA_LEN
    ensures Run(m, Programs(BlockAddr(Other(act)) + DATA_OFF, image[..idx]))[BlockAddr(act) + DATA_OFF + idx]
         == Data(m, act)[idx]
  {
    hide Run, Programs;
    RunPrograms(m, BlockAddr(Other(act)) + DATA_OFF, image[..idx]);
  }

  /** The copy loop: byte by byte, from the active block or from the caller's buffer. */
  method CopyOver(flash: FlashDevice, act: nat, buf: seq<Byte>, offset: nat, len: nat)
    requires flash.Valid() && offset < DATA_LEN && len < WORD16 && Clamp(offset, len) <= |buf|
    modifies flash`log, flash.cells
    ensures var m := old(flash.cells[..]);
            var cs := Programs(BlockAddr(Other(act)) + DATA_OFF, CopyImage(m, act, buf, offset, len));
            flash.cells[..] == Run(m, cs) && flash.log == old(flash.log) + cs
  {
    hide Run, Overlay, ToInt16;
    ghost var m := flash.cells[..];
    ghost var image := CopyImage(m, act, buf, offset, len);
    var src, dst := BlockAddr(act) + DATA_OFF, BlockAddr(Other(act)) + DATA_OFF;
    var high := ToInt16(offset + len);
    UpperLimit(offset, len);
    var pos := 0;
    var idx := 0;
    RunNone(m);
    assert Programs(dst, image[..0]) == [];
    while idx < DATA_LEN
      invariant idx <= DATA_LEN
      invariant pos == if idx <= offset || high <= offset then 0 else (if idx < high then idx else high) - offset
      invariant flash.cells[..] == Run(m, Programs(dst, image[..idx]))
      invariant flash.log == old(flash.log) + Programs(dst, image[..idx])
    {
      SourceUntouched(m, act, image, idx);
      assert flash.cells[src + idx] == flash.cells[..][src + idx] == Data(m, act)[idx];
      ProgramsSnoc(dst, image, idx);
      RunSnoc(m, Programs(dst, image[..idx]), Program(dst + idx, image[idx]));
      assert idx < offset || idx >= high ==> flash.cells[src + idx] == image[idx];
      assert !(idx < offset || idx >= high) ==> pos == idx - offset && buf[pos] == image[idx];
      if idx < offset || idx >= high {
        var _ := flash.ProgramByte(dst + idx, flash.cells[src + idx]);
      } else {
        var _ := flash.ProgramByte(dst + idx, buf[pos]);
        pos := pos + 1;
      }
      idx := idx + 1;
    }
    assert image[..idx] == image;
  }

  lemma UpperLimit(offset: nat, len: nat)
    requires offset < DATA_LEN && len < WORD16
    ensures if offset + len <= 0x7FFF then ToInt16(offset + len) == offset + len else ToInt16(offset + len) < offset
  {
  }

  // The layout of the flash, in bytes

  /** Where the mark, the active byte and the data of the two blocks are, and what they are. */
  lemma LayoutInBytes(m: seq<Byte>)
    requires |m| == FLASH_SIZE
    ensures |m| == 1024
    ensures Marked(m, 0) <==> m[0] == 0x56 && m[1] == 0x45 && m[2] == 0x45 && m[3] == 0x50
    ensures Marked(m, 1) <==> m[512] == 0x56 && m[513] == 0x45 && m[514] == 0x45 && m[515] == 0x50
    ensures (IsActive(m, 0) <==> m[4] == 0x77) && (IsActive(m, 1) <==> m[516] == 0x77)
    ensures Data(m, 0) == m[6..512] && Data(m, 1) == m[518..1024]
  {
    assert m[0..4] == [m[0], m[1], m[2], m[3]];
    assert m[512..516] == [m[512], m[513], m[514], m[515]];
  }

  /** The commands that format a block and that mark it active, by block index. */
  lemma CommandsInBytes()
    ensures EraseCommands(0) == [ErasePage(0), Program(0, 0x56), Program(1, 0x45), Program(2, 0x45), Program(3, 0x50)]
    ensures EraseCommands(1)
         == [ErasePage(1), Program(512, 0x56), Program(513, 0x45), Program(514, 0x45), Program(515, 0x50)]
    ensures EraseCommands(2) == EraseCommands(0)
    ensures MarkCommand(0) == Program(4, 0x77)
    ensures MarkCommand(1) == MarkCommand(2) == Program(516, 0x77) && MarkCommand(3) == Program(4, 0x77)
  {
  }

  /** The commands of a write of two bytes at offset 100 in either branch: in place to the second
      block, and as a copy from the second block to the first. */
  lemma WritesInBytes(image: seq<Byte>)
    requires |image| == DATA_LEN
    ensures InPlaceCommands(1, [0xAB, 0xCD], 100) == [Program(618, 0xAB), Program(619, 0xCD), Program(516, 0x77)]
    ensures var cs := CopyCommands(1, image);
            && |cs| == 512 && (forall i :: 0 <= i < 506 ==> cs[i] == Program(6 + i, image[i]))
            && cs[506..] == [Program(4, 0x77), ErasePage(1), Program(512, 0x56), Program(513, 0x45),
                             Program(514, 0x45), Program(515, 0x50)]
  {
    CommandsInBytes();
  }
}
