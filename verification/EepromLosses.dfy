/** The writes that the virtual EEPROM loses (pxbee/drivers/eeprom/veeprom.c) although they
    report success: for each way of losing one the exact condition, and a flash and a write
    for which it happens. */
module EepromLosses {
  import opened Bits
  import opened Flash
  import opened VirtualEeprom
  import opened EepromRecovery
  import opened EepromSafety
  import opened Words

  // After a first write that was cut short

  /** On a new device no block is active until the first write is complete. If that write is cut
      before its last command, a later write stores its bytes exactly when it is done in place;
      one that has to copy reports success and changes nothing. */
  lemma WriteAfterCutFirstWriteIsLost(m: seq<Byte>, first: seq<Byte>, at: nat, firstLen: nat, k: nat,
                                      buf: seq<Byte>, offset: nat, len: nat)
    requires Clean(m) && ActiveOf(m) == NUM_BLOCKS
    requires at < DATA_LEN && firstLen < WORD16 && Clamp(at, firstLen) <= |first| && k <= Clamp(at, firstLen)
    requires offset < DATA_LEN && len < WORD16 && Clamp(offset, len) <= |buf|
    ensures var c := Run(m, Cut(WriteCommands(m, first, at, firstLen), k));
            && Started(c) && Restarted(c) == c
            && (WrittenImage(c, buf, offset, len) == Splice(ReadImage(c), offset, buf[..Clamp(offset, len)])
                <==> InPlace(c, buf, offset, len))
            && (if InPlace(c, buf, offset, len) then Clean(Run(c, WriteCommands(c, buf, offset, len)))
                else WrittenImage(c, buf, offset, len) == ReadImage(c))
  {
    hide Run, Data, Fresh, Marked, Block, Erased, ReadImage, ScanCommands, InitCommands, OnlyClears, Splice, Clean,
         InPlace, CopyCommands, InPlaceCommands, CopyImage, ActiveBlock, WriteCommands, Overlay, WrittenImage;
    var c := Run(m, Cut(WriteCommands(m, first, at, firstLen), k));
    CutFirstWrite(m, first, at, firstLen, k);
    MarkedScan(c);
    WriteStoresExactly(c, buf, offset, len);
    if InPlace(c, buf, offset, len) {
      InPlaceDone(c, buf, offset, len);
      WrittenMeans(c, buf, offset, len);
    }
  }

  lemma WrittenMeans(m: seq<Byte>, buf: seq<Byte>, offset: nat, len: nat)
    requires Started(m) && offset < DATA_LEN && len < WORD16 && Clamp(offset, len) <= |buf|
    ensures WrittenImage(m, buf, offset, len) == ReadImage(Run(m, WriteCommands(m, buf, offset, len)))
  {
  }

  lemma CutFirstWrite(m: seq<Byte>, first: seq<Byte>, at: nat, firstLen: nat, k: nat)
    requires Clean(m) && ActiveOf(m) == NUM_BLOCKS
    requires at < DATA_LEN && firstLen < WORD16 && Clamp(at, firstLen) <= |first| && k <= Clamp(at, firstLen)
    ensures var c := Run(m, Cut(WriteCommands(m, first, at, firstLen), k));
            && Started(c) && ActiveOf(c) == NUM_BLOCKS && Fresh(c, 0)
            && ReadImage(c) == Splice(ReadImage(m), at, first[..k])
  {
    hide Run, Data, Fresh, Marked, Block, Erased, ReadImage, ScanCommands, OnlyClears, Splice, Clean, InPlace,
         CopyCommands, InPlaceCommands, CopyImage, ActiveBlock, WriteCommands;
    var data := first[..Clamp(at, firstLen)];
    CleanIsStarted(m);
    StartedWrite(m, first, at, firstLen);
    BlankOnlyClears(m, NUM_BLOCKS, at, data);
    InPlaceCutImage(m, data, at, k);
    assert data[..k] == first[..k];
    MarkedOther(m, Run(m, InPlaceCommands(NUM_BLOCKS, data, at)[..k]), NUM_BLOCKS);
  }

  // After a copy that was cut short

  /** A copy programs over whatever the spare block holds. It stores the intended image exactly
      when that needs no bit which is cleared there, and it leaves a clean state. */
  lemma CopyOverLeftovers(m: seq<Byte>, image: seq<Byte>)
    requires Started(m) && ActiveOf(m) < NUM_BLOCKS && |image| == DATA_LEN
    ensures var spare := Data(m, Other(ActiveOf(m)));
            var c := Run(m, CopyCommands(ActiveOf(m), image));
            && Clean(c) && ReadImage(c) == Overlay(spare, 0, image)
            && (ReadImage(c) == image <==> OnlyClears(spare, 0, image))
  {
    hide Run, Data, Marked, CopyCommands, ReadImage, Clean, Overlay, OnlyClears;
    CopyDone(m, image);
    OverlayStores(Data(m, Other(ActiveOf(m))), image);
  }

  /** The flash after a write that has to copy was cut after `k` commands and the device restarted. */
  function AfterCut(m: seq<Byte>, first: seq<Byte>, at: nat, firstLen: nat, k: nat): (c: seq<Byte>)
    requires |m| == FLASH_SIZE && at < DATA_LEN && firstLen < WORD16 && Clamp(at, firstLen) <= |first|
    ensures |c| == FLASH_SIZE
  {
    Restarted(Run(m, Cut(WriteCommands(m, first, at, firstLen), k)))
  }

  /** What such a cut leaves in the spare block, if it comes before the erase of the old block: so
      much of the image as was programmed; or, with both blocks marked active, the image that is
      not read. */
  function SpareLeft(m: seq<Byte>, image: seq<Byte>, k: nat): (spare: seq<Byte>)
    requires |m| == FLASH_SIZE && |image| == DATA_LEN
    ensures |spare| == DATA_LEN
  {
    if k <= DATA_LEN then image[..k] + seq(DATA_LEN - k, _ => ERASED)
    else if ActiveOf(m) == 0 then image else ReadImage(m)
  }

  /** Where a copy begun in a clean state was cut decides what is read and what is in the spare
      block. Once the erase has begun the state is clean. */
  lemma CutCopyLeaves(m: seq<Byte>, first: seq<Byte>, at: nat, firstLen: nat, k: nat)
    requires Clean(m) && at < DATA_LEN && firstLen < WORD16 && Clamp(at, firstLen) <= |first|
    requires !InPlace(m, first, at, firstLen)
    ensures var image := CopyImage(m, ActiveOf(m), first, at, firstLen);
            var c := AfterCut(m, first, at, firstLen, k);
            && Started(c) && ActiveOf(c) < NUM_BLOCKS
            && ReadImage(c) == (if Committed(ActiveOf(m), k) then image else ReadImage(m))
            && (if k >= DATA_LEN + 2 then Clean(c) else Data(c, Other(ActiveOf(c))) == SpareLeft(m, image, k))
  {
    hide Run, Data, Fresh, Marked, Block, Erased, ReadImage, ScanCommands, InitCommands, OnlyClears, Splice, Clean,
         InPlace, CopyCommands, InPlaceCommands, CopyImage, ActiveBlock, WriteCommands, Overlay, Restarted;
    var act := ActiveOf(m);
    var image := CopyImage(m, act, first, at, firstLen);
    CleanIsStarted(m);
    CopyNeedsActiveBlock(m, first, at, firstLen);
    StartedWrite(m, first, at, firstLen);
    FreshFacts(m, Other(act));
    var cs := CopyCommands(act, image);
    var j := if k <= |cs| then k else |cs|;
    assert Cut(cs, k) == cs[..j];
    CopyCutImage(m, image, j);
    BlankOverlay(image[..if k <= DATA_LEN then k else DATA_LEN]);
    assert image[..DATA_LEN] == image;
  }

  /** And with that what the next write stores: its bytes, exactly when it is done in place, or
      its range ends below 2^15 and it needs no bit that is cleared in the spare block. If it
      has to copy, what is read then is what its image and the spare block have in common, and
      the state is clean again. */
  lemma WriteAfterCutCopy(m: seq<Byte>, first: seq<Byte>, at: nat, firstLen: nat, k: nat,
                          buf: seq<Byte>, offset: nat, len: nat)
    requires Clean(m) && at < DATA_LEN && firstLen < WORD16 && Clamp(at, firstLen) <= |first|
    requires !InPlace(m, first, at, firstLen) && k < DATA_LEN + 2
    requires offset < DATA_LEN && len < WORD16 && Clamp(offset, len) <= |buf|
    ensures var c := AfterCut(m, first, at, firstLen, k);
            var spare := SpareLeft(m, CopyImage(m, ActiveOf(m), first, at, firstLen), k);
            var want := Splice(ReadImage(c), offset, buf[..Clamp(offset, len)]);
            && (WrittenImage(c, buf, offset, len) == want
                <==> InPlace(c, buf, offset, len) || (offset + len <= 0x7FFF && OnlyClears(spare, 0, want)))
            && (!InPlace(c, buf, offset, len) ==>
                  && Clean(Run(c, WriteCommands(c, buf, offset, len)))
                  && WrittenImage(c, buf, offset, len)
                     == Overlay(spare, 0, CopyImage(c, ActiveOf(c), buf, offset, len)))
  {
    hide Run, Data, Fresh, Marked, Block, Erased, ReadImage, OnlyClears, Splice, Clean, InPlace,
         CopyImage, WriteCommands, Overlay, WrittenImage, AfterCut, SpareLeft;
    CutCopyLeaves(m, first, at, firstLen, k);
    WriteStoresExactly(AfterCut(m, first, at, firstLen, k), buf, offset, len);
  }

  // Flashes and writes for which it happens

  /** A formatted device. */
  function Blank(): (m: seq<Byte>)
    ensures |m| == FLASH_SIZE
  {
    Erased(MARK_LEN) + Erased(MARK_LEN)
  }

  lemma BlankIsClean()
    ensures Clean(Blank()) && ActiveOf(Blank()) == NUM_BLOCKS
    ensures ReadImage(Blank()) == seq(DATA_LEN, _ => ERASED)
  {
    hide Erased, Data, ReadImage;
    var m := Blank();
    assert Block(m, 0) == Erased(MARK_LEN) && Block(m, 1) == Erased(MARK_LEN);
    FreshFacts(m, 0);
    FreshFacts(m, 1);
    MarkedScan(m);
    ActiveBlockChoice(m, NUM_BLOCKS);
  }

  /** The same after a first write: one byte, 0, at offset 0. */
  function OneByte(): (m: seq<Byte>)
    ensures |m| == FLASH_SIZE
  {
    Run(Blank(), WriteCommands(Blank(), [0], 0, 1))
  }

  lemma OneByteWritten()
    ensures Clean(OneByte()) && ReadImage(OneByte()) == [0] + seq(DATA_LEN - 1, _ => ERASED)
  {
    hide Blank, Run, Data, Fresh, Marked, Block, Erased, ReadImage, OnlyClears, Clean, InPlace,
         InPlaceCommands, ActiveBlock, WriteCommands;
    BlankIsClean();
    CleanIsStarted(Blank());
    BlankOnlyClears(Blank(), NUM_BLOCKS, 0, [0]);
    assert [0 as Byte][..Clamp(0, 1)] == [0];
    StartedWrite(Blank(), [0], 0, 1);
    InPlaceDone(Blank(), [0], 0, 1);
  }

  /** A write that would set a bit is not done in place. */
  lemma SettingNeedsCopy(m: seq<Byte>, buf: seq<Byte>, offset: nat, len: nat, i: nat)
    requires Started(m) && offset < DATA_LEN && len < WORD16 && i < Clamp(offset, len) <= |buf|
    requires buf[i] & !ReadImage(m)[offset + i] != 0
    ensures !InPlace(m, buf, offset, len)
  {
    hide Run, Data, Marked, ReadImage, InPlace, WriteCommands;
    var data := buf[..Clamp(offset, len)];
    MarkedScan(m);
    StartedWrite(m, buf, offset, len);
    OnlyClearsInBlock(m, ActiveOf(m), offset, data);
    assert data[i] == buf[i];
  }

  lemma SetsAll()
    ensures ERASED & !(0 as Byte) != 0
  {
  }

  /** Writing 0xFF over the whole array, with a length of 0x8000, to a device whose first byte is
      0: success is reported and the byte stays 0. */
  lemma LongWriteIsLost()
    ensures var m, buf := OneByte(), seq(DATA_LEN, _ => ERASED);
            && Clean(m) && !InPlace(m, buf, 0, 0x8000)
            && WrittenImage(m, buf, 0, 0x8000) == ReadImage(m) != Splice(ReadImage(m), 0, buf)
  {
    hide OneByte, ReadImage, InPlace, Clean, WrittenImage, Splice, WriteCommands, Run, Marked;
    var m, buf := OneByte(), seq(DATA_LEN, _ => ERASED);
    OneByteWritten();
    CleanIsStarted(m);
    SetsAll();
    SettingNeedsCopy(m, buf, 0, 0x8000, 0);
    WriteRefinesFlatArray(m, buf, 0, 0x8000);
    assert buf[..DATA_LEN] == buf;
  }

  /** On a blank device a first write of the byte 0 is cut before it marks the block active; then
      0xFF is written to the same place and is lost. */
  lemma CutFirstWriteExample()
    ensures var c := Run(Blank(), Cut(WriteCommands(Blank(), [0], 0, 1), 1));
            && Clean(Blank()) && ActiveOf(Blank()) == NUM_BLOCKS && Started(c)
            && !InPlace(c, [ERASED], 0, 1)
            && WrittenImage(c, [ERASED], 0, 1) == ReadImage(c) != Splice(ReadImage(c), 0, [ERASED])
  {
    hide Blank, Run, Data, Fresh, Marked, Block, Erased, ReadImage, OnlyClears, Clean, InPlace,
         ActiveBlock, WriteCommands, WrittenImage, Restarted;
    BlankIsClean();
    var c := Run(Blank(), Cut(WriteCommands(Blank(), [0], 0, 1), 1));
    CutFirstWrite(Blank(), [0], 0, 1, 1);
    assert [0 as Byte][..1] == [0];
    SetsAll();
    SettingNeedsCopy(c, [ERASED], 0, 1, 0);
    assert [ERASED][..1] == [ERASED];
    WriteAfterCutFirstWriteIsLost(Blank(), [0], 0, 1, 1, [ERASED], 0, 1);
  }

  function FirstCopy(): (b: seq<Byte>)
    ensures |b| == DATA_LEN
  {
    [ERASED] + seq(DATA_LEN - 1, _ => 0)
  }

  /** A device whose first byte is 0, after a copy of 0xFF followed by zeros that was cut after
      the last data byte. */
  function CutCopy(): (c: seq<Byte>)
    ensures |c| == FLASH_SIZE
  {
    AfterCut(OneByte(), FirstCopy(), 0, DATA_LEN, DATA_LEN)
  }

  lemma CutCopyState()
    ensures var c := CutCopy();
            && Started(c) && ReadImage(c) == ReadImage(OneByte())
            && ActiveOf(c) < NUM_BLOCKS && Data(c, Other(ActiveOf(c))) == FirstCopy()
  {
    hide OneByte, Run, Data, Fresh, Marked, Block, Erased, ReadImage, OnlyClears, Clean, InPlace, FirstCopy,
         ActiveBlock, WriteCommands, WrittenImage, AfterCut, CopyImage, Splice, Overlay;
    var m := OneByte();
    OneByteWritten();
    CleanIsStarted(m);
    MarkedScan(m);
    SetsAll();
    FirstCopyFacts(ReadImage(m));
    SettingNeedsCopy(m, FirstCopy(), 0, DATA_LEN, 0);
    StartedWrite(m, FirstCopy(), 0, DATA_LEN);
    CopyImageIsSplice(m, FirstCopy(), 0, DATA_LEN);
    CutCopyLeaves(m, FirstCopy(), 0, DATA_LEN, DATA_LEN);
  }

  /** Writing 0xFF to the first byte of it then destroys all the others. */
  lemma CutCopyExample()
    ensures var c := CutCopy();
            && Started(c) && !InPlace(c, [ERASED], 0, 1)
            && ReadImage(c) == [0] + seq(DATA_LEN - 1, _ => ERASED)
            && WrittenImage(c, [ERASED], 0, 1) == FirstCopy() != Splice(ReadImage(c), 0, [ERASED])
  {
    hide CutCopy, OneByte, Run, Data, Fresh, Marked, Block, Erased, ReadImage, OnlyClears, Clean, InPlace, FirstCopy,
         ActiveBlock, WriteCommands, WrittenImage, CopyImage, Splice, Overlay;
    var c := CutCopy();
    OneByteWritten();
    CutCopyState();
    MarkedScan(c);
    SetsAll();
    FirstCopyFacts(ReadImage(c));
    SettingNeedsCopy(c, [ERASED], 0, 1, 0);
    StartedWrite(c, [ERASED], 0, 1);
    CopyImageIsSplice(c, [ERASED], 0, 1);
    WriteStoresExactly(c, [ERASED], 0, 1);
  }

  lemma FirstCopyFacts(was: seq<Byte>)
    requires was == [0] + seq(DATA_LEN - 1, _ => ERASED)
    ensures FirstCopy()[0] == ERASED && FirstCopy()[..DATA_LEN] == FirstCopy() && [ERASED][..1] == [ERASED]
    ensures Splice(was, 0, FirstCopy()) == FirstCopy()
    ensures Splice(was, 0, [ERASED]) == seq(DATA_LEN, _ => ERASED) != FirstCopy()
    ensures FirstCopy()[..DATA_LEN] + seq(0, _ => ERASED) == FirstCopy()
    ensures Overlay(FirstCopy(), 0, Splice(was, 0, [ERASED])) == FirstCopy()
  {
    assert seq(DATA_LEN, _ => ERASED)[1] != FirstCopy()[1];
    assert FirstCopy() + seq(0, _ => ERASED) == FirstCopy();
    var f := FirstCopy();
    var r := Overlay(f, 0, seq(DATA_LEN, _ => ERASED));
    forall i | 0 <= i < DATA_LEN
      ensures r[i] == f[i]
    {
      AndBlank(f[i]);
    }
  }

  lemma AndBlank(x: Byte)
    ensures x & ERASED == x
  {
  }
}
