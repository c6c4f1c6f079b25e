/** Power loss in the virtual EEPROM: what restarting the device makes of flash contents that
    an interrupted operation left behind (pxbee/drivers/eeprom/veeprom.c). */
module EepromRecovery {
  import opened Bits
  import opened Flash
  import opened VirtualEeprom

  function Block(m: seq<Byte>, block: nat): (b: seq<Byte>)
    requires |m| == FLASH_SIZE
    ensures |b| == PAGE_SIZE
  {
    m[BlockAddr(block)..BlockAddr(block) + PAGE_SIZE]
  }

  function Replace(m: seq<Byte>, block: nat, content: seq<Byte>): (r: seq<Byte>)
    requires |m| == FLASH_SIZE && |content| == PAGE_SIZE
    ensures |r| == FLASH_SIZE
  {
    if block == 0 then content + m[PAGE_SIZE..] else m[..PAGE_SIZE] + content
  }

  /** A block in which the first `k` mark bytes are written and everything else is erased. */
  function Erased(k: nat): (b: seq<Byte>)
    requires k <= MARK_LEN
    ensures |b| == PAGE_SIZE
  {
    MARK[..k] + seq(PAGE_SIZE - k, _ => ERASED)
  }

  /** The block carries its mark and is otherwise blank. */
  predicate Fresh(m: seq<Byte>, block: nat)
    requires |m| == FLASH_SIZE
  {
    Block(m, block) == Erased(MARK_LEN)
  }

  /** The states that completed operations leave behind. The last clause matters: with no
      active block the second one is read, but it is the first one that gets erased. */
  predicate Clean(m: seq<Byte>): (clean: bool)
    ensures clean ==> |m| == FLASH_SIZE
  {
    && |m| == FLASH_SIZE
    && Marked(m, 0) && Marked(m, 1)
    && (IsActive(m, 0) ==> Fresh(m, 1))
    && (IsActive(m, 1) ==> Fresh(m, 0))
    && (!IsActive(m, 0) && !IsActive(m, 1) ==> Fresh(m, 0) && Fresh(m, 1))
  }

  lemma FreshFacts(m: seq<Byte>, block: nat)
    requires |m| == FLASH_SIZE && Fresh(m, block)
    ensures Marked(m, block) && !IsActive(m, block)
    ensures forall i :: BlockAddr(block) + MARK_LEN <= i < BlockAddr(block) + PAGE_SIZE ==> m[i] == ERASED
    ensures Data(m, block) == seq(DATA_LEN, _ => ERASED)
  {
    var b := Block(m, block);
    forall i | BlockAddr(block) + MARK_LEN <= i < BlockAddr(block) + PAGE_SIZE
      ensures m[i] == ERASED
    {
      assert m[i] == b[i - BlockAddr(block)];
    }
    assert m[BlockAddr(block)..BlockAddr(block) + MARK_LEN] == b[..MARK_LEN] == MARK;
    assert b[ACTIVE_OFF] == ERASED;
    assert Data(m, block) == b[DATA_OFF..];
  }

  lemma MarkOnErased()
    ensures forall i :: 0 <= i < MARK_LEN ==> ERASED & MARK[i] == MARK[i]
  {
  }

  lemma EraseCommandsCut(block: nat, k: nat)
    requires block < NUM_BLOCKS && k <= MARK_LEN
    ensures EraseCommands(block)[..k + 1] == [ErasePage(PageOf(block))] + Programs(BlockAddr(block), MARK[..k])
  {
    ProgramsPrefix(BlockAddr(block), MARK, k);
  }

  lemma RunOne(m: seq<Byte>, c: Command)
    ensures Run(m, [c]) == Step(m, c)
  {
    RunNone(m);
    RunSnoc(m, [], c);
    assert [] + [c] == [c];
  }

  lemma MarkErasedPage(m: seq<Byte>, block: nat, k: nat)
    requires |m| == FLASH_SIZE && block < NUM_BLOCKS && k <= MARK_LEN
    ensures Overlay(Step(m, ErasePage(PageOf(block))), BlockAddr(block), MARK[..k]) == Replace(m, block, Erased(k))
  {
    MarkOnErased();
    var base := BlockAddr(block);
    var blank := Step(m, ErasePage(PageOf(block)));
    var l, r := Overlay(blank, base, MARK[..k]), Replace(m, block, Erased(k));
    forall i | 0 <= i < FLASH_SIZE
      ensures l[i] == r[i]
    {
      if base <= i < base + PAGE_SIZE {
        assert blank[i] == ERASED;
        assert r[i] == Erased(k)[i - base];
      } else {
        assert l[i] == m[i] == r[i];
      }
    }
  }

  /** Any prefix of the erase of a block leaves that block with some of its mark bytes and
      nothing else, and leaves the other block alone. */
  lemma EraseCut(m: seq<Byte>, block: nat, k: nat)
    requires |m| == FLASH_SIZE && block < NUM_BLOCKS && k <= MARK_LEN
    ensures Run(m, EraseCommands(block)[..k + 1]) == Replace(m, block, Erased(k))
  {
    hide Run, EraseCommands, Step, Overlay, Replace, Programs, Erased;
    var e := ErasePage(PageOf(block));
    var blank := Step(m, e);
    EraseCommandsCut(block, k);
    RunOne(m, e);
    RunConcat(m, [e], Programs(BlockAddr(block), MARK[..k]));
    RunPrograms(blank, BlockAddr(block), MARK[..k]);
    MarkErasedPage(m, block, k);
  }

  /** Mark, active byte and data of a block, read off the block itself. */
  lemma BlockFacts(m: seq<Byte>, block: nat)
    requires |m| == FLASH_SIZE
    ensures Marked(m, block) == (Block(m, block)[..MARK_LEN] == MARK)
    ensures IsActive(m, block) == (Block(m, block)[ACTIVE_OFF] == ACTIVE)
    ensures Data(m, block) == Block(m, block)[DATA_OFF..]
  {
    assert Block(m, block)[..MARK_LEN] == m[BlockAddr(block)..BlockAddr(block) + MARK_LEN];
  }

  lemma SameBlocks(a: seq<Byte>, b: seq<Byte>)
    requires |a| == |b| == FLASH_SIZE
    requires Block(a, 0) == Block(b, 0) && Block(a, 1) == Block(b, 1)
    ensures a == b
  {
    assert a == Block(a, 0) + Block(a, 1);
    assert b == Block(b, 0) + Block(b, 1);
  }

  lemma ReplaceBlocks(m: seq<Byte>, block: nat, content: seq<Byte>)
    requires |m| == FLASH_SIZE && |content| == PAGE_SIZE && block < NUM_BLOCKS
    ensures Block(Replace(m, block, content), block) == content
    ensures Block(Replace(m, block, content), Other(block)) == Block(m, Other(block))
  {
  }

  lemma ErasedIsMarkedWhenWhole(k: nat)
    requires k <= MARK_LEN
    ensures (Erased(k)[..MARK_LEN] == MARK) == (k == MARK_LEN)
    ensures Erased(k)[ACTIVE_OFF] == ERASED
    ensures Erased(k)[DATA_OFF..] == seq(DATA_LEN, _ => ERASED)
  {
    if k < MARK_LEN {
      assert Erased(k)[..MARK_LEN][k] == ERASED != MARK[k];
    }
  }

  /** What a completed start-up makes of one block. */
  function RepairedBlock(m: seq<Byte>, block: nat): (b: seq<Byte>)
    requires |m| == FLASH_SIZE
  {
    if Marked(m, block) then Block(m, block) else Erased(MARK_LEN)
  }

  /** Some prefix of the repair of a block: nothing, or an erase that got part of the way. */
  ghost predicate PartlyRepaired(m: seq<Byte>, c: seq<Byte>, block: nat)
    requires |m| == |c| == FLASH_SIZE
  {
    || Block(c, block) == Block(m, block)
    || (!Marked(m, block) && exists k :: 0 <= k <= MARK_LEN && Block(c, block) == Erased(k))
  }

  lemma RepairCut(m: seq<Byte>, block: nat, k: nat)
    requires |m| == FLASH_SIZE && block < NUM_BLOCKS && k <= |RepairCommands(m, block)|
    ensures var c := Run(m, RepairCommands(m, block)[..k]);
            && PartlyRepaired(m, c, block)
            && Block(c, Other(block)) == Block(m, Other(block))
            && (k == |RepairCommands(m, block)| ==> Block(c, block) == RepairedBlock(m, block))
  {
    hide Run, EraseCommands, Replace, Block, Marked, Erased;
    RunNone(m);
    if k > 0 {
      EraseCut(m, block, k - 1);
      ReplaceBlocks(m, block, Erased(k - 1));
    }
  }

  lemma InitShape(m: seq<Byte>)
    requires |m| == FLASH_SIZE
    ensures var r0 := RepairCommands(m, 0);
            InitCommands(m, 0) == r0 + RepairCommands(Run(m, r0), 1)
  {
    hide Run, RepairCommands;
    var r0 := RepairCommands(m, 0);
    var r1 := RepairCommands(Run(m, r0), 1);
    assert InitCommands(Run(m, r0), 1) == r1 + InitCommands(Run(Run(m, r0), r1), 2);
    assert r1 + [] == r1;
  }

  /** Power lost after any number of the commands of a start-up: every block is either as it
      was, or was damaged before and is now partly erased. */
  lemma InitCut(m: seq<Byte>, k: nat)
    requires |m| == FLASH_SIZE && k <= |InitCommands(m, 0)|
    ensures var c := Run(m, InitCommands(m, 0)[..k]);
            && PartlyRepaired(m, c, 0) && PartlyRepaired(m, c, 1)
            && (k == |InitCommands(m, 0)| ==>
                  Block(c, 0) == RepairedBlock(m, 0) && Block(c, 1) == RepairedBlock(m, 1))
  {
    hide Run, RepairCommands, Block, Erased, InitCommands, Marked;
    var r0 := RepairCommands(m, 0);
    var m1 := Run(m, r0);
    var r1 := RepairCommands(m1, 1);
    InitShape(m);
    RepairCut(m, 0, |r0|);
    assert r0[..|r0|] == r0;
    BlockFacts(m, 1);
    BlockFacts(m1, 1);
    if k <= |r0| {
      assert (r0 + r1)[..k] == r0[..k];
      RepairCut(m, 0, k);
      if k == |r0| == |r0 + r1| {
        RepairCut(m1, 1, 0);
        RunNone(m1);
        assert r1[..0] == [];
      }
    } else {
      assert (r0 + r1)[..k] == r0 + r1[..k - |r0|];
      RunConcat(m, r0, r1[..k - |r0|]);
      RepairCut(m1, 1, k - |r0|);
    }
  }

  /** The contents after a start-up that is allowed to finish. */
  function Restarted(m: seq<Byte>): (r: seq<Byte>)
    requires |m| == FLASH_SIZE
    ensures |r| == FLASH_SIZE
  {
    Run(m, InitCommands(m, 0))
  }

  /** The contents after start-ups cut short after the given numbers of commands, one after
      the other, and then one that finishes. */
  function Reboot(m: seq<Byte>, cuts: seq<nat>): (r: seq<Byte>)
    requires |m| == FLASH_SIZE
    ensures |r| == FLASH_SIZE
    decreases |cuts|
  {
    if cuts == [] then Restarted(m)
    else
      Reboot(Run(m, Cut(InitCommands(m, 0), cuts[0])), cuts[1..])
  }

  lemma RestartedBlocks(m: seq<Byte>)
    requires |m| == FLASH_SIZE
    ensures Block(Restarted(m), 0) == RepairedBlock(m, 0)
    ensures Block(Restarted(m), 1) == RepairedBlock(m, 1)
    ensures Marked(Restarted(m), 0) && Marked(Restarted(m), 1)
  {
    hide Run, InitCommands, Block, Erased, Marked;
    var cs := InitCommands(m, 0);
    InitCut(m, |cs|);
    assert cs[..|cs|] == cs;
    ErasedIsMarkedWhenWhole(MARK_LEN);
    BlockFacts(m, 0);
    BlockFacts(m, 1);
    BlockFacts(Restarted(m), 0);
    BlockFacts(Restarted(m), 1);
  }

  /** Cutting a start-up short does not change what the next one makes of the flash. */
  lemma RestartAfterCut(m: seq<Byte>, k: nat)
    requires |m| == FLASH_SIZE && k <= |InitCommands(m, 0)|
    ensures Restarted(Run(m, InitCommands(m, 0)[..k])) == Restarted(m)
  {
    hide Run, InitCommands, Block, Erased, Marked, Restarted;
    var c := Run(m, InitCommands(m, 0)[..k]);
    InitCut(m, k);
    RestartedBlocks(m);
    RestartedBlocks(c);
    PartlyRepairedBlock(m, c, 0);
    PartlyRepairedBlock(m, c, 1);
    SameBlocks(Restarted(c), Restarted(m));
  }

  lemma PartlyRepairedBlock(m: seq<Byte>, c: seq<Byte>, block: nat)
    requires |m| == |c| == FLASH_SIZE && PartlyRepaired(m, c, block)
    ensures RepairedBlock(c, block) == RepairedBlock(m, block)
  {
    hide Block, Erased, Marked;
    BlockFacts(m, block);
    BlockFacts(c, block);
    if Block(c, block) != Block(m, block) {
      var k :| 0 <= k <= MARK_LEN && Block(c, block) == Erased(k);
      ErasedIsMarkedWhenWhole(k);
    }
  }

  /** However often start-up is interrupted, the start-up that finishes gives the same result. */
  lemma {:induction false} RebootIsRestart(m: seq<Byte>, cuts: seq<nat>)
    requires |m| == FLASH_SIZE
    ensures Reboot(m, cuts) == Restarted(m)
    decreases |cuts|
  {
    hide Run, InitCommands, Restarted;
    if cuts != [] {
      var cs := InitCommands(m, 0);
      var k := if cuts[0] <= |cs| then cuts[0] else |cs|;
      assert cs[..|cs|] == cs;
      RebootIsRestart(Run(m, cs[..k]), cuts[1..]);
      RestartAfterCut(m, k);
    }
  }
}
