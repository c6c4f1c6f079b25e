/** A single write to the virtual EEPROM (pxbee/drivers/eeprom/veeprom.c): what it stores in any
    state the EEPROM can be in after a start-up, and what a write begun in a clean state leaves
    behind when it is cut short at any command. */
module EepromSafety {
  import opened Bits
  import opened Flash
  import opened VirtualEeprom
  import opened EepromRecovery
  import opened Words

  /** `image` with `data` written over it at `offset`. */
  function Splice(image: seq<Byte>, offset: nat, data: seq<Byte>): (r: seq<Byte>)
    requires offset + |data| <= |image|
    ensures |r| == |image|
  {
    image[..offset] + data + image[offset + |data|..]
  }

  function ActiveOf(m: seq<Byte>): nat
    requires |m| == FLASH_SIZE
  {
    if IsActive(m, 0) then 0 else if IsActive(m, 1) then 1 else NUM_BLOCKS
  }

  /** With both marks in place nothing is repaired. */
  lemma MarkedScan(m: seq<Byte>)
    requires |m| == FLASH_SIZE && Marked(m, 0) && Marked(m, 1)
    ensures ScanCommands(m, 0) == [] && ActiveBlock(m, 0) == ActiveOf(m)
    ensures ReadImage(m) == Data(m, ActiveOf(m))
    ensures InitCommands(m, 0) == [] && Restarted(m) == m
  {
    hide Run, EraseCommands, Marked, IsActive;
    RunNone(m);
    ScanStep(m, 0);
    ScanStep(m, 1);
    ScanEnd(m);
    InitShape(m);
  }

  /** The marks are complete, and no active byte is half programmed. This holds after a start-up
      unless a marked block had such a byte before, which none of the operations leaves. */
  ghost predicate Started(m: seq<Byte>): (started: bool)
    ensures started ==> |m| == FLASH_SIZE
  {
    |m| == FLASH_SIZE && Marked(m, 0) && Marked(m, 1) && ActiveByteFits(m, 0) && ActiveByteFits(m, 1)
  }

  predicate ActiveByteFits(m: seq<Byte>, block: nat)
    requires |m| == FLASH_SIZE
  {
    m[BlockAddr(block) + ACTIVE_OFF] == ERASED || IsActive(m, block)
  }

  lemma ClearsKeepsData(x: Byte, d: Byte)
    requires d & !x == 0
    ensures x & d == d
  {
  }

  /** Programming bytes that only clear bits writes exactly those bytes. */
  lemma OverlayIsSplice(m: seq<Byte>, addr: nat, data: seq<Byte>)
    requires addr + |data| <= |m| && OnlyClears(m, addr, data)
    ensures Overlay(m, addr, data) == Splice(m, addr, data)
  {
    var l, r := Overlay(m, addr, data), Splice(m, addr, data);
    forall i | 0 <= i < |m|
      ensures l[i] == r[i]
    {
      if addr <= i < addr + |data| {
        ClearsKeepsData(m[i], data[i - addr]);
      }
    }
  }

  /** Programming part of the data of a block clears bits in that part of its data only. */
  lemma OverlayInBlock(m: seq<Byte>, block: nat, offset: nat, data: seq<Byte>)
    requires |m| == FLASH_SIZE && offset + |data| <= DATA_LEN
    ensures var r := Overlay(m, BlockAddr(block) + DATA_OFF + offset, data);
            && Data(r, block) == Overlay(Data(m, block), offset, data)
            && Block(r, block)[..DATA_OFF] == Block(m, block)[..DATA_OFF]
            && Block(r, Other(block)) == Block(m, Other(block))
  {
    hide Data, Block;
    var r := Overlay(m, BlockAddr(block) + DATA_OFF + offset, data);
    forall i | 0 <= i < DATA_LEN
      ensures Data(r, block)[i] == Overlay(Data(m, block), offset, data)[i]
    {
      DataAt(m, block, i);
      DataAt(r, block, i);
    }
    forall i | 0 <= i < DATA_OFF
      ensures Block(r, block)[..DATA_OFF][i] == Block(m, block)[..DATA_OFF][i]
    {
      BlockAt(m, block, i);
      BlockAt(r, block, i);
    }
    forall i | 0 <= i < PAGE_SIZE
      ensures Block(r, Other(block))[i] == Block(m, Other(block))[i]
    {
      BlockAt(m, Other(block), i);
      BlockAt(r, Other(block), i);
    }
  }

  lemma DataAt(m: seq<Byte>, block: nat, i: nat)
    requires |m| == FLASH_SIZE && i < DATA_LEN
    ensures Data(m, block)[i] == m[BlockAddr(block) + DATA_OFF + i]
  {
  }

  lemma BlockAt(m: seq<Byte>, block: nat, i: nat)
    requires |m| == FLASH_SIZE && i < PAGE_SIZE
    ensures Block(m, block)[i] == m[BlockAddr(block) + i]
  {
  }

  lemma OnlyClearsInBlock(m: seq<Byte>, block: nat, offset: nat, data: seq<Byte>)
    requires |m| == FLASH_SIZE && offset + |data| <= DATA_LEN
    ensures OnlyClears(m, BlockAddr(block) + DATA_OFF + offset, data) <==> OnlyClears(Data(m, block), offset, data)
  {
    hide Data;
    forall i | 0 <= i < |data|
      ensures data[i] & !Data(m, block)[offset + i] == data[i] & !m[BlockAddr(block) + DATA_OFF + offset + i]
    {
      DataAt(m, block, offset + i);
    }
  }

  /** Marking a block active changes nothing but its active byte. */
  lemma MarkStep(m: seq<Byte>, block: nat)
    requires |m| == FLASH_SIZE && block <= NUM_BLOCKS
    requires m[BlockAddr(block) + ACTIVE_OFF] == ERASED || IsActive(m, block)
    ensures var r := Step(m, MarkCommand(block));
            && IsActive(r, block)
            && Data(r, block) == Data(m, block)
            && Marked(r, block) == Marked(m, block)
            && Block(r, Other(block)) == Block(m, Other(block))
  {
    var r := Step(m, MarkCommand(block));
    assert r == m[BlockAddr(block) + ACTIVE_OFF := ACTIVE];
    assert Data(r, block) == Data(m, block);
    assert r[BlockAddr(block)..BlockAddr(block) + MARK_LEN] == m[BlockAddr(block)..BlockAddr(block) + MARK_LEN];
    assert Block(r, Other(block)) == Block(m, Other(block));
  }

  lemma CleanIsStarted(m: seq<Byte>)
    requires Clean(m)
    ensures Started(m)
    ensures var act := ActiveOf(m);
            && !IsActive(m, Other(act)) && Fresh(m, Other(act))
            && (act == NUM_BLOCKS ==> Fresh(m, act))
  {
    hide Block, Erased, Marked;
    if IsActive(m, 0) { FreshFacts(m, 1); }
    if IsActive(m, 1) { FreshFacts(m, 0); }
    if !IsActive(m, 0) && !IsActive(m, 1) {
      FreshFacts(m, 0);
      FreshFacts(m, 1);
      ActiveBlockChoice(m, NUM_BLOCKS);
    }
  }

  lemma MarkedOther(m: seq<Byte>, c: seq<Byte>, block: nat)
    requires |m| == |c| == FLASH_SIZE && Block(c, Other(block)) == Block(m, Other(block))
    ensures Marked(c, Other(block)) == Marked(m, Other(block))
    ensures IsActive(c, Other(block)) == IsActive(m, Other(block))
    ensures Data(c, Other(block)) == Data(m, Other(block))
    ensures Fresh(c, Other(block)) == Fresh(m, Other(block))
  {
    BlockFacts(m, Other(block));
    BlockFacts(c, Other(block));
  }

  /** Every index but 0 means the second block. */
  lemma ActiveBlockChoice(m: seq<Byte>, block: nat)
    requires |m| == FLASH_SIZE && block <= NUM_BLOCKS
    ensures block != 0 ==> Data(m, block) == Data(m, 1) == Data(m, NUM_BLOCKS)
    ensures block != 0 ==> Marked(m, block) == Marked(m, 1) && IsActive(m, block) == IsActive(m, 1)
    ensures block != 0 ==> Fresh(m, block) == Fresh(m, 1)
  {
  }

  /** `data` put into a block, its mark and active byte left alone. */
  ghost predicate Holds(m: seq<Byte>, c: seq<Byte>, block: nat, data: seq<Byte>)
    requires |m| == |c| == FLASH_SIZE
  {
    && Data(c, block) == data
    && Marked(c, block) == Marked(m, block)
    && Block(c, Other(block)) == Block(m, Other(block))
  }

  lemma ProgramData(m: seq<Byte>, block: nat, offset: nat, data: seq<Byte>)
    requires |m| == FLASH_SIZE && block <= NUM_BLOCKS && offset + |data| <= DATA_LEN
    ensures var c := Run(m, Programs(BlockAddr(block) + DATA_OFF + offset, data));
            && Holds(m, c, block, Overlay(Data(m, block), offset, data))
            && c[BlockAddr(block) + ACTIVE_OFF] == m[BlockAddr(block) + ACTIVE_OFF]
  {
    hide Run, Programs, Overlay, Data, Block, Marked;
    var addr := BlockAddr(block) + DATA_OFF + offset;
    var c := Run(m, Programs(addr, data));
    RunPrograms(m, addr, data);
    OverlayInBlock(m, block, offset, data);
    BlockFacts(m, block);
    BlockFacts(c, block);
    BlockAt(m, block, ACTIVE_OFF);
    BlockAt(c, block, ACTIVE_OFF);
    assert Block(c, block)[..DATA_OFF][ACTIVE_OFF] == Block(m, block)[..DATA_OFF][ACTIVE_OFF];
    assert Block(c, block)[..MARK_LEN] == Block(c, block)[..DATA_OFF][..MARK_LEN];
    assert Block(m, block)[..MARK_LEN] == Block(m, block)[..DATA_OFF][..MARK_LEN];
  }

  // Writes done in place

  lemma OnlyClearsPrefix(m: seq<Byte>, addr: nat, data: seq<Byte>, k: nat)
    requires addr + |data| <= |m| && k <= |data| && OnlyClears(m, addr, data)
    ensures OnlyClears(m, addr, data[..k])
  {
  }

  /** A write done in place, cut after `k` commands. */
  lemma InPlaceCut(m: seq<Byte>, buf: seq<Byte>, offset: nat, k: nat)
    requires Started(m) && offset + |buf| <= DATA_LEN && k <= |buf| + 1
    requires OnlyClears(m, BlockAddr(ActiveOf(m)) + DATA_OFF + offset, buf)
    ensures var act := ActiveOf(m);
            var c := Run(m, InPlaceCommands(act, buf, offset)[..k]);
            var j := if k <= |buf| then k else |buf|;
            && Holds(m, c, act, Splice(Data(m, act), offset, buf[..j]))
            && if k <= |buf| then c[BlockAddr(act) + ACTIVE_OFF] == m[BlockAddr(act) + ACTIVE_OFF]
               else IsActive(c, act)
  {
    hide Run, Splice, Data, Marked, OnlyClears, Block, Overlay;
    var act := ActiveOf(m);
    var addr := BlockAddr(act) + DATA_OFF + offset;
    OnlyClearsInBlock(m, act, offset, buf);
    ActiveByteChoice(m);
    if k <= |buf| {
      OnlyClearsPrefix(Data(m, act), offset, buf, k);
      OverlayIsSplice(Data(m, act), offset, buf[..k]);
      ProgramsPrefix(addr, buf, k);
      assert InPlaceCommands(act, buf, offset)[..k] == Programs(addr, buf[..k]);
      ProgramData(m, act, offset, buf[..k]);
    } else {
      assert InPlaceCommands(act, buf, offset)[..k] == Programs(addr, buf) + [MarkCommand(act)];
      assert buf[..|buf|] == buf;
      OverlayIsSplice(Data(m, act), offset, buf);
      ProgramData(m, act, offset, buf);
      var c := Run(m, Programs(addr, buf));
      RunSnoc(m, Programs(addr, buf), MarkCommand(act));
      MarkStep(c, act);
    }
  }

  lemma ActiveByteChoice(m: seq<Byte>)
    requires Started(m)
    ensures ActiveByteFits(m, ActiveOf(m))
  {
    hide Marked;
  }

  /** After a cut in-place write the flash is as after any start-up, and the image read is a
      prefix of the new bytes followed by old ones. */
  lemma InPlaceCutImage(m: seq<Byte>, buf: seq<Byte>, offset: nat, k: nat)
    requires Started(m) && offset + |buf| <= DATA_LEN && k <= |buf| + 1
    requires OnlyClears(m, BlockAddr(ActiveOf(m)) + DATA_OFF + offset, buf)
    ensures var c := Run(m, InPlaceCommands(ActiveOf(m), buf, offset)[..k]);
            && Started(c)
            && ReadImage(c) == Splice(ReadImage(m), offset, buf[..if k <= |buf| then k else |buf|])
            && ActiveOf(c) == (if k <= |buf| || ActiveOf(m) == 0 then ActiveOf(m) else 1)
            && Block(c, Other(ActiveOf(m))) == Block(m, Other(ActiveOf(m)))
            && (k == |buf| + 1 && Fresh(m, Other(ActiveOf(m))) ==> Clean(c))
  {
    hide Run, Splice, Data, Marked, OnlyClears, Block, Erased, InPlaceCommands, IsActive, ReadImage;
    var act := ActiveOf(m);
    var c := Run(m, InPlaceCommands(act, buf, offset)[..k]);
    InPlaceCut(m, buf, offset, k);
    MarkedOther(m, c, act);
    ActiveBytes(m, c, act);
    ActiveBlockChoice(m, act);
    ActiveBlockChoice(c, act);
    MarkedScan(m);
    MarkedScan(c);
    if Fresh(m, Other(act)) {
      FreshFacts(m, Other(act));
    }
  }

  /** The active bytes of two flash contents that agree outside one block. */
  lemma ActiveBytes(m: seq<Byte>, c: seq<Byte>, block: nat)
    requires |m| == |c| == FLASH_SIZE && Block(c, Other(block)) == Block(m, Other(block))
    ensures c[BlockAddr(Other(block)) + ACTIVE_OFF] == m[BlockAddr(Other(block)) + ACTIVE_OFF]
    ensures IsActive(m, block) == (m[BlockAddr(block) + ACTIVE_OFF] == ACTIVE)
    ensures IsActive(c, block) == (c[BlockAddr(block) + ACTIVE_OFF] == ACTIVE)
    ensures ActiveByteFits(m, Other(block)) == ActiveByteFits(c, Other(block))
  {
    hide Block;
    BlockAt(m, Other(block), ACTIVE_OFF);
    BlockAt(c, Other(block), ACTIVE_OFF);
    IsActiveByte(m, Other(block));
    IsActiveByte(c, Other(block));
  }

  // Writes that copy

  /** The copy has reached the point where start-up will find the new image: the new block is
      marked active and, when the old one comes first in the search, that one is erased. */
  predicate Committed(act: nat, k: nat) {
    k >= if act == 0 then DATA_LEN + 2 else DATA_LEN + 1
  }

  /** A copying write, cut while the image is being programmed or just after the other block was
      marked active: the source of the copy is as it was. */
  lemma CopyCutEarly(m: seq<Byte>, image: seq<Byte>, k: nat)
    requires Started(m) && |image| == DATA_LEN && k <= DATA_LEN + 1
    ensures var o := Other(ActiveOf(m));
            var c := Run(m, CopyCommands(ActiveOf(m), image)[..k]);
            && Holds(m, c, o, Overlay(Data(m, o), 0, image[..if k <= DATA_LEN then k else DATA_LEN]))
            && if k <= DATA_LEN then c[BlockAddr(o) + ACTIVE_OFF] == m[BlockAddr(o) + ACTIVE_OFF] else IsActive(c, o)
  {
    hide Run, Data, Marked, Block, Overlay;
    var act := ActiveOf(m);
    var o := Other(act);
    var addr := BlockAddr(o) + DATA_OFF;
    if k <= DATA_LEN {
      ProgramsPrefix(addr, image, k);
      assert CopyCommands(act, image)[..k] == Programs(addr, image[..k]);
      ProgramData(m, o, 0, image[..k]);
    } else {
      assert CopyCommands(act, image)[..k] == Programs(addr, image) + [MarkCommand(o)];
      assert image[..DATA_LEN] == image;
      ProgramData(m, o, 0, image);
      RunSnoc(m, Programs(addr, image), MarkCommand(o));
      MarkStep(Run(m, Programs(addr, image)), o);
    }
  }

  /** A copying write, cut while a block is being erased. With an active block it is that one;
      without one it is the block just written. */
  lemma CopyCutLate(m: seq<Byte>, image: seq<Byte>, k: nat)
    requires Started(m) && |image| == DATA_LEN
    requires DATA_LEN + 2 <= k <= DATA_LEN + 2 + MARK_LEN
    ensures var act := ActiveOf(m);
            var c := Run(m, CopyCommands(act, image)[..k]);
            if act == NUM_BLOCKS then Block(c, 0) == Erased(k - DATA_LEN - 2) && Block(c, 1) == Block(m, 1)
            else
              && Block(c, act) == Erased(k - DATA_LEN - 2)
              && Marked(c, Other(act)) && IsActive(c, Other(act))
              && Data(c, Other(act)) == Overlay(Data(m, Other(act)), 0, image)
  {
    hide Run, Data, Marked, Block, Fresh, Replace, Erased, Overlay, EraseCommands;
    var act := ActiveOf(m);
    var cs := CopyCommands(act, image);
    var h := DATA_LEN + 1;
    var c := Run(m, cs[..h]);
    CopyCutEarly(m, image, h);
    assert image[..DATA_LEN] == image;
    var erased := if act == NUM_BLOCKS then 0 else act;
    ErasesFirst();
    CopyTail(act, image, k);
    RunConcat(m, cs[..h], EraseCommands(erased)[..k - h]);
    EraseCut(c, erased, k - h - 1);
    ReplaceBlocks(c, erased, Erased(k - h - 1));
    if act == NUM_BLOCKS {
      SecondBlock(c);
      SecondBlock(m);
    } else {
      MarkedOther(c, Run(m, cs[..k]), act);
    }
  }

  lemma ErasesFirst()
    ensures EraseCommands(NUM_BLOCKS) == EraseCommands(0)
  {
  }

  lemma SecondBlock(m: seq<Byte>)
    requires |m| == FLASH_SIZE
    ensures Block(m, NUM_BLOCKS) == Block(m, 1)
  {
  }

  lemma CopyTail(act: nat, image: seq<Byte>, k: nat)
    requires |image| == DATA_LEN && DATA_LEN + 2 <= k <= DATA_LEN + 2 + MARK_LEN
    ensures var cs := CopyCommands(act, image);
            cs[..k] == cs[..DATA_LEN + 1] + EraseCommands(act)[..k - DATA_LEN - 1]
  {
    hide EraseCommands;
  }

  /** What is read after the start-up that follows a cut copy from an active block, and what is
      then in the spare block. */
  lemma CopyCutImage(m: seq<Byte>, image: seq<Byte>, k: nat)
    requires Started(m) && ActiveOf(m) < NUM_BLOCKS && |image| == DATA_LEN
    requires k <= DATA_LEN + 2 + MARK_LEN
    ensures var act := ActiveOf(m);
            var spare := Data(m, Other(act));
            var r := Restarted(Run(m, CopyCommands(act, image)[..k]));
            && Started(r) && ActiveOf(r) == (if Committed(act, k) then Other(act) else act)
            && ReadImage(r) == (if Committed(act, k) then Overlay(spare, 0, image) else ReadImage(m))
            && (if k >= DATA_LEN + 2 then Clean(r)
                else Data(r, Other(ActiveOf(r))) == SpareAfterCut(act, ReadImage(m), spare, image, k))
  {
    hide Run, Data, Marked, Block, CopyCommands, Restarted, InitCommands, ReadImage, ScanCommands, Erased, Overlay;
    var act := ActiveOf(m);
    var o := Other(act);
    var c := Run(m, CopyCommands(act, image)[..k]);
    var r := Restarted(c);
    RestartedBlocks(c);
    MarkedScan(m);
    MarkedScan(r);
    BlockFacts(m, act);
    BlockFacts(c, act);
    BlockFacts(c, o);
    BlockFacts(r, act);
    BlockFacts(r, o);
    if k <= DATA_LEN + 1 {
      CopyCutEarly(m, image, k);
      assert image[..DATA_LEN] == image;
      ActiveBytes(m, c, o);
      ActiveBytes(c, r, act);
      ActiveBytes(c, r, o);
    } else {
      CopyCutLate(m, image, k);
      ErasedIsMarkedWhenWhole(k - DATA_LEN - 2);
      ErasedIsMarkedWhenWhole(MARK_LEN);
      assert Clean(r);
      CleanIsStarted(r);
    }
  }

  /** The data in the spare block after a copy from block `act` was cut before the erase: what
      it held, less what has been programmed of the new image; or, when both blocks are already
      marked active and the search finds the new one first, the old image. */
  function SpareAfterCut(act: nat, old': seq<Byte>, spare: seq<Byte>, image: seq<Byte>, k: nat): (d: seq<Byte>)
    requires |old'| == |spare| == |image| == DATA_LEN
    ensures |d| == DATA_LEN
  {
    if k <= DATA_LEN then Overlay(spare, 0, image[..k])
    else if act == 0 then Overlay(spare, 0, image) else old'
  }

  /** The same without an active block. The copy is read only if the power fails after the first
      block was marked active and before it is erased again. */
  lemma UnmarkedCopyCutImage(m: seq<Byte>, image: seq<Byte>, k: nat)
    requires Started(m) && ActiveOf(m) == NUM_BLOCKS && |image| == DATA_LEN
    requires k <= DATA_LEN + 2 + MARK_LEN
    ensures var r := Restarted(Run(m, CopyCommands(NUM_BLOCKS, image)[..k]));
            && Started(r)
            && ReadImage(r) == (if k == DATA_LEN + 1 then Overlay(Data(m, 0), 0, image) else ReadImage(m))
  {
    hide Run, Data, Marked, Block, CopyCommands, Restarted, InitCommands, ReadImage, ScanCommands, Erased, Overlay;
    var c := Run(m, CopyCommands(NUM_BLOCKS, image)[..k]);
    var r := Restarted(c);
    RestartedBlocks(c);
    MarkedScan(m);
    MarkedScan(r);
    BlockFacts(m, 1);
    BlockFacts(c, 0);
    BlockFacts(c, 1);
    BlockFacts(r, 0);
    BlockFacts(r, 1);
    ActiveBlockChoice(m, NUM_BLOCKS);
    ActiveBlockChoice(r, NUM_BLOCKS);
    if k <= DATA_LEN + 1 {
      CopyCutEarly(m, image, k);
      assert image[..DATA_LEN] == image;
      ActiveBytes(m, c, 0);
      ActiveBytes(c, r, 0);
      ActiveBytes(c, r, 1);
    } else {
      CopyCutLate(m, image, k);
      ErasedIsMarkedWhenWhole(k - DATA_LEN - 2);
      ErasedIsMarkedWhenWhole(MARK_LEN);
      ActiveBytes(m, r, 0);
      FreshFacts(r, 0);
    }
  }

  lemma BlankOverlay(data: seq<Byte>)
    requires |data| <= DATA_LEN
    ensures Overlay(seq(DATA_LEN, _ => ERASED), 0, data) == data + seq(DATA_LEN - |data|, _ => ERASED)
    ensures |data| == DATA_LEN ==> Overlay(seq(DATA_LEN, _ => ERASED), 0, data) == data
  {
    forall i | 0 <= i < |data|
      ensures ERASED & data[i] == data[i]
    {
      BlankAnd(data[i]);
    }
  }

  lemma BlankAnd(x: Byte)
    ensures ERASED & x == x
  {
  }

  // Whole writes

  /** The commands of a write after start-up. */
  lemma StartedWrite(m: seq<Byte>, buf: seq<Byte>, offset: nat, len: nat)
    requires Started(m) && offset < DATA_LEN && len < WORD16 && Clamp(offset, len) <= |buf|
    ensures var act := ActiveOf(m);
            var data := buf[..Clamp(offset, len)];
            && InPlace(m, buf, offset, len) == OnlyClears(m, BlockAddr(act) + DATA_OFF + offset, data)
            && WriteCommands(m, buf, offset, len) ==
                 if InPlace(m, buf, offset, len) then InPlaceCommands(act, data, offset)
                 else CopyCommands(act, CopyImage(m, act, buf, offset, len))
  {
    hide Run, ScanCommands, ActiveBlock, Block, Marked, Erased, OnlyClears, InPlaceCommands, CopyCommands, CopyImage;
    MarkedScan(m);
    RunNone(m);
  }

  /** The copied image is the intended one exactly when `offset + len` is not taken for a
      negative number; otherwise not one of the new bytes is in it. */
  lemma CopyImageIsSplice(m: seq<Byte>, buf: seq<Byte>, offset: nat, len: nat)
    requires |m| == FLASH_SIZE && offset < DATA_LEN && len < WORD16 && Clamp(offset, len) <= |buf|
    requires !OnlyClears(m, BlockAddr(ActiveOf(m)) + DATA_OFF + offset, buf[..Clamp(offset, len)])
    ensures var was := Data(m, ActiveOf(m));
            var want := Splice(was, offset, buf[..Clamp(offset, len)]);
            && was != want
            && CopyImage(m, ActiveOf(m), buf, offset, len) == (if offset + len <= 0x7FFF then want else was)
  {
    var act := ActiveOf(m);
    var n := Clamp(offset, len);
    var was := Data(m, act);
    var want := Splice(was, offset, buf[..n]);
    var image := CopyImage(m, act, buf, offset, len);
    var i :| 0 <= i < n && buf[..n][i] & !m[BlockAddr(act) + DATA_OFF + offset + i] != 0;
    assert was[offset + i] == m[BlockAddr(act) + DATA_OFF + offset + i] != buf[i] == want[offset + i];
    UpperLimit(offset, len);
    forall j | 0 <= j < DATA_LEN
      ensures image[j] == if offset + len <= 0x7FFF then want[j] else was[j]
    {
    }
  }

  /** The image after a write that is not interrupted. */
  function WrittenImage(m: seq<Byte>, buf: seq<Byte>, offset: nat, len: nat): seq<Byte>
    requires |m| == FLASH_SIZE && offset < DATA_LEN && len < WORD16 && Clamp(offset, len) <= |buf|
  {
    ReadImage(Run(m, WriteCommands(m, buf, offset, len)))
  }

  /** A whole in-place write stores its bytes. */
  lemma InPlaceDone(m: seq<Byte>, buf: seq<Byte>, offset: nat, len: nat)
    requires Started(m) && offset < DATA_LEN && len < WORD16 && Clamp(offset, len) <= |buf|
    requires InPlace(m, buf, offset, len)
    ensures var c := Run(m, WriteCommands(m, buf, offset, len));
            && Started(c) && ReadImage(c) == Splice(ReadImage(m), offset, buf[..Clamp(offset, len)])
            && (Fresh(m, Other(ActiveOf(m))) ==> Clean(c))
  {
    hide Run, Marked, Block, Erased, OnlyClears, InPlaceCommands, Splice, ReadImage, Fresh, Clean, InPlace,
         WriteCommands;
    var data := buf[..Clamp(offset, len)];
    StartedWrite(m, buf, offset, len);
    InPlaceCutImage(m, data, offset, |data| + 1);
    var cs := InPlaceCommands(ActiveOf(m), data, offset);
    assert cs[..|data| + 1] == cs;
    assert data[..|data|] == data;
  }

  /** A whole copy from an active block: the state is clean again, and what is read is what the
      image and the former contents of the spare block have in common. */
  lemma CopyDone(m: seq<Byte>, image: seq<Byte>)
    requires Started(m) && ActiveOf(m) < NUM_BLOCKS && |image| == DATA_LEN
    ensures var c := Run(m, CopyCommands(ActiveOf(m), image));
            Clean(c) && ReadImage(c) == Overlay(Data(m, Other(ActiveOf(m))), 0, image)
  {
    hide Run, Data, Block, CopyCommands, ReadImage, Erased, Overlay, Marked;
    var act := ActiveOf(m);
    var cs := CopyCommands(act, image);
    assert cs[..|cs|] == cs;
    CopyCutLate(m, image, |cs|);
    var c := Run(m, cs);
    ErasedIsMarkedWhenWhole(MARK_LEN);
    BlockFacts(c, act);
    MarkedScan(c);
  }

  /** Without an active block the copy goes to the first block, which is then erased: nothing
      is stored. */
  lemma CopyWithoutActiveBlockIsLost(m: seq<Byte>, image: seq<Byte>)
    requires Started(m) && ActiveOf(m) == NUM_BLOCKS && |image| == DATA_LEN
    ensures var c := Run(m, CopyCommands(ActiveOf(m), image));
            Started(c) && Fresh(c, 0) && ActiveOf(c) == NUM_BLOCKS && ReadImage(c) == ReadImage(m)
  {
    hide Run, Data, Block, CopyCommands, ReadImage, Erased, Overlay, Marked;
    var cs := CopyCommands(NUM_BLOCKS, image);
    assert cs[..|cs|] == cs;
    CopyCutLate(m, image, |cs|);
    var c := Run(m, cs);
    ErasedIsMarkedWhenWhole(MARK_LEN);
    BlockFacts(c, 0);
    MarkedOther(m, c, 0);
    ActiveBytes(m, c, 0);
    FreshFacts(c, 0);
    ActiveBlockChoice(m, NUM_BLOCKS);
    ActiveBlockChoice(c, NUM_BLOCKS);
    MarkedScan(m);
    MarkedScan(c);
  }

  /** When a write stores its bytes, for every state after a start-up: when it is done in place,
      or when some block is active, the end of the range fits a signed 16-bit integer and the
      spare block has no bit cleared that the new image needs. */
  ghost predicate Stores(m: seq<Byte>, buf: seq<Byte>, offset: nat, len: nat)
    requires Started(m) && offset < DATA_LEN && len < WORD16 && Clamp(offset, len) <= |buf|
  {
    || InPlace(m, buf, offset, len)
    || (&& ActiveOf(m) < NUM_BLOCKS && offset + len <= 0x7FFF
        && OnlyClears(Data(m, Other(ActiveOf(m))), 0, Splice(ReadImage(m), offset, buf[..Clamp(offset, len)])))
  }

  /** Exactly then it does; and exactly what is read afterwards when it does not. */
  lemma WriteStoresExactly(m: seq<Byte>, buf: seq<Byte>, offset: nat, len: nat)
    requires Started(m) && offset < DATA_LEN && len < WORD16 && Clamp(offset, len) <= |buf|
    ensures Started(Run(m, WriteCommands(m, buf, offset, len)))
    ensures WrittenImage(m, buf, offset, len) == Splice(ReadImage(m), offset, buf[..Clamp(offset, len)])
            <==> Stores(m, buf, offset, len)
    ensures !InPlace(m, buf, offset, len) ==>
              if ActiveOf(m) == NUM_BLOCKS then WrittenImage(m, buf, offset, len) == ReadImage(m)
              else
                && Clean(Run(m, WriteCommands(m, buf, offset, len)))
                && WrittenImage(m, buf, offset, len)
                   == Overlay(Data(m, Other(ActiveOf(m))), 0, CopyImage(m, ActiveOf(m), buf, offset, len))
  {
    hide Run, Data, Marked, Block, Erased, OnlyClears, CopyCommands, CopyImage, ReadImage, Splice, InPlace,
         WriteCommands, Clean, Overlay, InPlaceCommands, Fresh;
    if InPlace(m, buf, offset, len) {
      InPlaceDone(m, buf, offset, len);
    } else {
      StartedWrite(m, buf, offset, len);
      CopyImageIsSplice(m, buf, offset, len);
      MarkedScan(m);
      var act := ActiveOf(m);
      var image := CopyImage(m, act, buf, offset, len);
      if act == NUM_BLOCKS {
        CopyWithoutActiveBlockIsLost(m, image);
      } else {
        CopyDone(m, image);
        CleanIsStarted(Run(m, CopyCommands(act, image)));
        var spare := Data(m, Other(act));
        OverlayStores(spare, image);
        NewBitIsMissing(m, spare, buf, offset, len);
      }
    }
  }

  /** Programming an image over other data stores it exactly when only bits are cleared. */
  lemma OverlayStores(spare: seq<Byte>, image: seq<Byte>)
    requires |spare| == |image|
    ensures Overlay(spare, 0, image) == image <==> OnlyClears(spare, 0, image)
  {
    if OnlyClears(spare, 0, image) {
      OverlayIsSplice(spare, 0, image);
      SpliceWhole(spare, image);
    } else {
      var i :| 0 <= i < |image| && image[i] & !spare[0 + i] != 0;
      CommonBits(spare[i], image[i]);
      OverlayAt(spare, 0, image, i);
    }
  }

  lemma OverlayAt(m: seq<Byte>, addr: nat, data: seq<Byte>, i: nat)
    requires addr + |data| <= |m| && i < |data|
    ensures Overlay(m, addr, data)[addr + i] == m[addr + i] & data[i]
  {
  }

  lemma SpliceWhole(image: seq<Byte>, data: seq<Byte>)
    requires |image| == |data|
    ensures Splice(image, 0, data) == data
  {
  }

  lemma CommonBits(x: Byte, d: Byte)
    ensures x & d == d <==> d & !x == 0
  {
  }

  /** The old image lacks a bit of the new one, and programming never adds one. */
  lemma NewBitIsMissing(m: seq<Byte>, spare: seq<Byte>, buf: seq<Byte>, offset: nat, len: nat)
    requires |m| == FLASH_SIZE && |spare| == DATA_LEN
    requires offset < DATA_LEN && len < WORD16 && Clamp(offset, len) <= |buf|
    requires !OnlyClears(m, BlockAddr(ActiveOf(m)) + DATA_OFF + offset, buf[..Clamp(offset, len)])
    ensures var was := Data(m, ActiveOf(m));
            Overlay(spare, 0, was) != Splice(was, offset, buf[..Clamp(offset, len)])
  {
    hide Data, Overlay, ActiveOf;
    var was := Data(m, ActiveOf(m));
    var data := buf[..Clamp(offset, len)];
    OnlyClearsInBlock(m, ActiveOf(m), offset, data);
    var i :| 0 <= i < |data| && data[i] & !was[offset + i] != 0;
    NoNewBit(spare[offset + i], was[offset + i], data[i]);
    OverlayAt(spare, 0, was, offset + i);
    assert Splice(was, offset, data)[offset + i] == data[i];
  }

  lemma NoNewBit(x: Byte, w: Byte, d: Byte)
    requires d & !w != 0
    ensures x & w != d
  {
  }

  // From a clean state

  /** With no active block the second one is blank, so nothing needs copying. */
  lemma CopyNeedsActiveBlock(m: seq<Byte>, buf: seq<Byte>, offset: nat, len: nat)
    requires Clean(m) && offset < DATA_LEN && len < WORD16 && Clamp(offset, len) <= |buf|
    requires !InPlace(m, buf, offset, len)
    ensures ActiveOf(m) < NUM_BLOCKS
  {
    hide Run, Block, Marked, Erased, OnlyClears, InPlace, WriteCommands, Fresh, Clean;
    CleanIsStarted(m);
    StartedWrite(m, buf, offset, len);
    if ActiveOf(m) == NUM_BLOCKS {
      BlankOnlyClears(m, NUM_BLOCKS, offset, buf[..Clamp(offset, len)]);
    }
  }

  lemma BlankOnlyClears(m: seq<Byte>, block: nat, offset: nat, data: seq<Byte>)
    requires |m| == FLASH_SIZE && offset + |data| <= DATA_LEN && Fresh(m, block)
    ensures OnlyClears(m, BlockAddr(block) + DATA_OFF + offset, data)
    ensures OnlyClears(Data(m, block), offset, data)
  {
    hide Fresh, Data;
    FreshFacts(m, block);
    forall i | 0 <= i < |data|
      ensures data[i] & !m[BlockAddr(block) + DATA_OFF + offset + i] == 0
    {
    }
    OnlyClearsInBlock(m, block, offset, data);
  }

  /** Crash atomicity. Cut the power after any number `k` of the commands of a write that began
      in a clean state, then restart, with any number of restarts cut short as well. What is
      read then is the old image or the whole new one when the write copies, and the old image
      with a prefix of the new bytes when the write is done in place. */
  lemma CrashAtomicity(m: seq<Byte>, buf: seq<Byte>, offset: nat, len: nat, k: nat, cuts: seq<nat>)
    requires Clean(m) && offset < DATA_LEN && len < WORD16 && Clamp(offset, len) <= |buf|
    ensures var n := Clamp(offset, len);
            var image := ReadImage(Reboot(Run(m, Cut(WriteCommands(m, buf, offset, len), k)), cuts));
            if InPlace(m, buf, offset, len)
            then image == Splice(ReadImage(m), offset, buf[..if k <= n then k else n])
            else
              var copy := CopyImage(m, ActiveOf(m), buf, offset, len);
              image == if Committed(ActiveOf(m), k) then copy else ReadImage(m)
  {
    hide Run, Data, Fresh, Overlay, ScanCommands, ActiveBlock, Block, Marked, Erased, OnlyClears, InPlaceCommands,
         CopyCommands, CopyImage, ReadImage, Splice, Restarted, InitCommands, WriteCommands, InPlace, Clean, Reboot;
    var cs := WriteCommands(m, buf, offset, len);
    var c := Run(m, Cut(cs, k));
    var j := if k <= |cs| then k else |cs|;
    assert Cut(cs, k) == cs[..j];
    RebootIsRestart(c, cuts);
    CleanIsStarted(m);
    StartedWrite(m, buf, offset, len);
    var n := Clamp(offset, len);
    if InPlace(m, buf, offset, len) {
      InPlaceCutImage(m, buf[..n], offset, j);
      MarkedScan(c);
      assert buf[..n][..if k <= n then k else n] == buf[..if k <= n then k else n];
    } else {
      var image := CopyImage(m, ActiveOf(m), buf, offset, len);
      CopyNeedsActiveBlock(m, buf, offset, len);
      FreshFacts(m, Other(ActiveOf(m)));
      BlankOverlay(image);
      CopyCutImage(m, image, j);
    }
  }

  /** A write keeps the clean state, and it stores its bytes exactly when it is done in place
      or the end of the range it was given fits a signed 16-bit integer. */
  lemma WriteRefinesFlatArray(m: seq<Byte>, buf: seq<Byte>, offset: nat, len: nat)
    requires Clean(m) && offset < DATA_LEN && len < WORD16 && Clamp(offset, len) <= |buf|
    ensures Clean(Run(m, WriteCommands(m, buf, offset, len)))
    ensures WrittenImage(m, buf, offset, len) == Splice(ReadImage(m), offset, buf[..Clamp(offset, len)])
            <==> InPlace(m, buf, offset, len) || offset + len <= 0x7FFF
    ensures !(InPlace(m, buf, offset, len) || offset + len <= 0x7FFF)
            ==> WrittenImage(m, buf, offset, len) == ReadImage(m)
  {
    hide Run, Block, Data, Marked, Erased, OnlyClears, CopyImage, ReadImage, Splice, WriteCommands, InPlace, Clean,
         Overlay, Fresh;
    CleanIsStarted(m);
    MarkedScan(m);
    StartedWrite(m, buf, offset, len);
    WriteStoresExactly(m, buf, offset, len);
    if InPlace(m, buf, offset, len) {
      InPlaceDone(m, buf, offset, len);
    } else {
      var act := ActiveOf(m);
      CopyNeedsActiveBlock(m, buf, offset, len);
      FreshFacts(m, Other(act));
      BlankOnlyClears(m, Other(act), 0, Splice(ReadImage(m), offset, buf[..Clamp(offset, len)]));
      CopyImageIsSplice(m, buf, offset, len);
      BlankOverlay(CopyImage(m, act, buf, offset, len));
    }
  }

  /** Start-up on flash that carries no mark gives a clean, blank EEPROM. */
  lemma FormatIsClean(m: seq<Byte>)
    requires |m| == FLASH_SIZE && !Marked(m, 0) && !Marked(m, 1)
    ensures Clean(Restarted(m)) && ReadImage(Restarted(m)) == seq(DATA_LEN, _ => ERASED)
  {
    hide Run, Data, Block, Restarted, InitCommands, ReadImage, ScanCommands, Erased;
    var r := Restarted(m);
    RestartedBlocks(m);
    FreshFacts(r, 0);
    FreshFacts(r, 1);
    MarkedScan(r);
    ActiveBlockChoice(r, NUM_BLOCKS);
  }
}
