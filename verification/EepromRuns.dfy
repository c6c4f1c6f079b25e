/** Whole runs of the virtual EEPROM (pxbee/drivers/eeprom/veeprom.c). Without power loss it is a
    flat array of 506 bytes. With power loss it always starts again, and what each further write
    stores is known exactly; it need not be what was asked for. */
module EepromRuns {
  import opened Bits
  import opened Flash
  import opened VirtualEeprom
  import opened EepromRecovery
  import opened EepromSafety
  import opened Words

  // Runs without power loss

  datatype Request = ReadAt(offset: nat, len: nat) | WriteAt(buf: seq<Byte>, offset: nat, len: nat)

  /** The result code of a request, and the bytes a read delivers. */
  datatype Reply = Reply(ret: int, bytes: seq<Byte>)

  /** Lengths are 16-bit numbers, and the caller's buffer is large enough. */
  predicate Proper(r: Request) {
    && r.len < WORD16
    && (r.WriteAt? && r.offset < DATA_LEN ==> Clamp(r.offset, r.len) <= |r.buf|)
  }

  /** What the methods of module VirtualEeprom do with a request. */
  function Serve(m: seq<Byte>, r: Request): (s: (seq<Byte>, Reply))
    requires |m| == FLASH_SIZE && Proper(r)
    ensures |s.0| == FLASH_SIZE
  {
    if r.offset >= DATA_LEN then (m, Reply(-EINVAL, []))
    else
      var n := Clamp(r.offset, r.len);
      match r
      case ReadAt(offset, _) =>
        (Run(m, ScanCommands(m, 0)), Reply(n, ReadImage(m)[offset..offset + n]))
      case WriteAt(buf, offset, len) =>
        (Run(m, WriteCommands(m, buf, offset, len)), Reply(n, []))
  }

  /** The same request on a plain array of 506 bytes. */
  function ServeFlat(image: seq<Byte>, r: Request): (s: (seq<Byte>, Reply))
    requires |image| == DATA_LEN && Proper(r)
    ensures |s.0| == DATA_LEN
  {
    if r.offset >= DATA_LEN then (image, Reply(-EINVAL, []))
    else
      var n := Clamp(r.offset, r.len);
      match r
      case ReadAt(offset, _) => (image, Reply(n, image[offset..offset + n]))
      case WriteAt(buf, offset, _) => (Splice(image, offset, buf[..n]), Reply(n, []))
  }

  function ServeAll(m: seq<Byte>, rs: seq<Request>): (s: (seq<Byte>, seq<Reply>))
    requires |m| == FLASH_SIZE && forall r :: r in rs ==> Proper(r)
    ensures |s.0| == FLASH_SIZE
    decreases |rs|
  {
    if rs == [] then (m, [])
    else
      var (m1, reply) := Serve(m, rs[0]);
      var (m2, replies) := ServeAll(m1, rs[1..]);
      (m2, [reply] + replies)
  }

  function ServeAllFlat(image: seq<Byte>, rs: seq<Request>): (s: (seq<Byte>, seq<Reply>))
    requires |image| == DATA_LEN && forall r :: r in rs ==> Proper(r)
    ensures |s.0| == DATA_LEN
    decreases |rs|
  {
    if rs == [] then (image, [])
    else
      var (i1, reply) := ServeFlat(image, rs[0]);
      var (i2, replies) := ServeAllFlat(i1, rs[1..]);
      (i2, [reply] + replies)
  }

  /** A write that copies must end below 2^15; nothing else is limited. */
  predicate Fits(m: seq<Byte>, r: Request)
    requires |m| == FLASH_SIZE && Proper(r)
  {
    r.WriteAt? && r.offset < DATA_LEN ==> InPlace(m, r.buf, r.offset, r.len) || r.offset + r.len <= 0x7FFF
  }

  /** Every request of the run fits when its turn comes. */
  predicate AllFit(m: seq<Byte>, rs: seq<Request>)
    requires |m| == FLASH_SIZE && forall r :: r in rs ==> Proper(r)
    decreases |rs|
  {
    rs == [] || (Fits(m, rs[0]) && AllFit(Serve(m, rs[0]).0, rs[1..]))
  }

  /** The flash answers the request as the array does, whatever is asked; it is left with the
      same image exactly when the request fits. */
  lemma ServeRefinesExactly(m: seq<Byte>, r: Request)
    requires Clean(m) && Proper(r)
    ensures var (m', reply) := Serve(m, r);
            var (image, flat) := ServeFlat(ReadImage(m), r);
            Clean(m') && reply == flat && (ReadImage(m') == image <==> Fits(m, r))
  {
    hide Run, ScanCommands, Block, Marked, Erased, ReadImage, Splice, WriteCommands, InPlace, Clean;
    if r.offset < DATA_LEN {
      match r
      case ReadAt(_, _) =>
        CleanIsStarted(m);
        MarkedScan(m);
        RunNone(m);
      case WriteAt(buf, offset, len) =>
        WriteRefinesFlatArray(m, buf, offset, len);
    }
  }

  /** Over every run of reads and writes from a clean state that fit, the two AND-only blocks
      answer as one array of 506 bytes. */
  lemma {:induction false} RunRefinesFlatArray(m: seq<Byte>, rs: seq<Request>)
    requires Clean(m) && (forall r :: r in rs ==> Proper(r)) && AllFit(m, rs)
    ensures var (m', replies) := ServeAll(m, rs);
            Clean(m') && (ReadImage(m'), replies) == ServeAllFlat(ReadImage(m), rs)
    decreases |rs|
  {
    hide Clean, ReadImage, Serve, ServeFlat, Fits;
    if rs != [] {
      ServeRefinesExactly(m, rs[0]);
      RunRefinesFlatArray(Serve(m, rs[0]).0, rs[1..]);
    }
  }

  /** The image after the first `k` requests is that of the array. */
  ghost predicate AgreesAfter(m: seq<Byte>, rs: seq<Request>, k: nat)
    requires |m| == FLASH_SIZE && (forall r :: r in rs ==> Proper(r)) && k <= |rs|
  {
    ReadImage(ServeAll(m, rs[..k]).0) == ServeAllFlat(ReadImage(m), rs[..k]).0
  }

  /** And they must fit: the image is that of the array throughout the run exactly when every
      request fits when its turn comes. */
  lemma {:induction false} RunAgreesExactly(m: seq<Byte>, rs: seq<Request>)
    requires Clean(m) && forall r :: r in rs ==> Proper(r)
    ensures (forall k :: 0 <= k <= |rs| ==> AgreesAfter(m, rs, k)) <==> AllFit(m, rs)
    decreases |rs|
  {
    hide Clean, ReadImage, Serve, ServeFlat, Fits, AgreesAfter;
    if rs == [] {
      AgreesStep(m, rs, 0);
    } else {
      ServeRefinesExactly(m, rs[0]);
      var m' := Serve(m, rs[0]).0;
      RunAgreesExactly(m', rs[1..]);
      AgreesStep(m, rs, 0);
      AgreesStep(m, rs, 1);
      if Fits(m, rs[0]) {
        forall k | 0 < k <= |rs|
          ensures AgreesAfter(m, rs, k) == AgreesAfter(m', rs[1..], k - 1)
        {
          AgreesStep(m, rs, k);
        }
        forall k | 0 <= k <= |rs| - 1
          ensures AgreesAfter(m', rs[1..], k) == AgreesAfter(m, rs, k + 1)
        {
          AgreesStep(m, rs, k + 1);
        }
      }
    }
  }

  lemma AgreesStep(m: seq<Byte>, rs: seq<Request>, k: nat)
    requires Clean(m) && (forall r :: r in rs ==> Proper(r)) && k <= |rs|
    ensures k == 0 ==> AgreesAfter(m, rs, k)
    ensures k == 1 ==> (AgreesAfter(m, rs, k) <==> Fits(m, rs[0]))
    ensures k > 0 && Fits(m, rs[0]) ==>
              (AgreesAfter(m, rs, k) <==> AgreesAfter(Serve(m, rs[0]).0, rs[1..], k - 1))
  {
    hide Clean, ReadImage, Serve, ServeFlat, Fits;
    if k > 0 {
      ServeRefinesExactly(m, rs[0]);
      assert rs[..k][0] == rs[0];
      assert rs[..k][1..] == rs[1..][..k - 1];
      if k == 1 {
        ServeOne(m, ReadImage(m), rs[..k]);
      }
    }
  }

  lemma ServeOne(m: seq<Byte>, image: seq<Byte>, rs: seq<Request>)
    requires |m| == FLASH_SIZE && |image| == DATA_LEN && |rs| == 1 && forall r :: r in rs ==> Proper(r)
    ensures ServeAll(m, rs).0 == Serve(m, rs[0]).0 && ServeAllFlat(image, rs).0 == ServeFlat(image, rs[0]).0
  {
    hide Serve, ServeFlat;
    assert rs[1..] == [];
  }

  /** In particular from the first start-up on, however often that one was interrupted: the
      array then begins as all 0xFF. */
  lemma EepromIsFlatArray(m: seq<Byte>, cuts: seq<nat>, rs: seq<Request>)
    requires |m| == FLASH_SIZE && !Marked(m, 0) && !Marked(m, 1)
    requires (forall r :: r in rs ==> Proper(r)) && AllFit(Reboot(m, cuts), rs)
    ensures var (m', replies) := ServeAll(Reboot(m, cuts), rs);
            (ReadImage(m'), replies) == ServeAllFlat(seq(DATA_LEN, _ => ERASED), rs)
  {
    hide Clean, AllFit, ServeAll, ServeAllFlat, ReadImage, Reboot, Restarted;
    RebootIsRestart(m, cuts);
    FormatIsClean(m);
    RunRefinesFlatArray(Restarted(m), rs);
  }

  // Runs with power loss

  /** After a start-up no active byte is half programmed, exactly when none was in a marked block. */
  lemma StartsWhenSound(m: seq<Byte>)
    requires |m| == FLASH_SIZE
    ensures Started(Restarted(m))
       <==> (Marked(m, 0) ==> ActiveByteFits(m, 0)) && (Marked(m, 1) ==> ActiveByteFits(m, 1))
  {
    hide Restarted, Marked, Block, Erased;
    var r := Restarted(m);
    RestartedBlocks(m);
    ErasedIsMarkedWhenWhole(MARK_LEN);
    BlockFacts(m, 0);
    BlockFacts(m, 1);
    BlockFacts(r, 0);
    BlockFacts(r, 1);
    BlockAt(m, 0, ACTIVE_OFF);
    BlockAt(m, 1, ACTIVE_OFF);
    BlockAt(r, 0, ACTIVE_OFF);
    BlockAt(r, 1, ACTIVE_OFF);
  }

  /** What is read when a write begun in the state `m` is cut after `k` commands. */
  ghost function CutImage(m: seq<Byte>, buf: seq<Byte>, offset: nat, len: nat, k: nat): seq<Byte>
    requires Started(m) && offset < DATA_LEN && len < WORD16 && Clamp(offset, len) <= |buf|
  {
    var act := ActiveOf(m);
    var n := Clamp(offset, len);
    if InPlace(m, buf, offset, len) then Splice(ReadImage(m), offset, buf[..if k <= n then k else n])
    else
      var programmed := Overlay(Data(m, Other(act)), 0, CopyImage(m, act, buf, offset, len));
      if if act == NUM_BLOCKS then k == DATA_LEN + 1 else Committed(act, k) then programmed else ReadImage(m)
  }

  /** Crash atomicity from any state after a start-up: the old image, or the programmed one, or
      a prefix, as after a clean start; and the EEPROM starts again. */
  lemma CrashFromAnyStart(m: seq<Byte>, buf: seq<Byte>, offset: nat, len: nat, k: nat, cuts: seq<nat>)
    requires Started(m) && offset < DATA_LEN && len < WORD16 && Clamp(offset, len) <= |buf|
    ensures var r := Reboot(Run(m, Cut(WriteCommands(m, buf, offset, len), k)), cuts);
            Started(r) && ReadImage(r) == CutImage(m, buf, offset, len, k)
  {
    hide Run, Data, Fresh, Overlay, ScanCommands, ActiveBlock, Block, Marked, Erased, OnlyClears, InPlaceCommands,
         CopyCommands, CopyImage, ReadImage, Splice, Restarted, InitCommands, WriteCommands, InPlace, Clean, Reboot;
    var cs := WriteCommands(m, buf, offset, len);
    var c := Run(m, Cut(cs, k));
    var j := if k <= |cs| then k else |cs|;
    assert Cut(cs, k) == cs[..j];
    RebootIsRestart(c, cuts);
    StartedWrite(m, buf, offset, len);
    var n := Clamp(offset, len);
    if InPlace(m, buf, offset, len) {
      InPlaceCutImage(m, buf[..n], offset, j);
      MarkedScan(c);
      assert buf[..n][..if k <= n then k else n] == buf[..if k <= n then k else n];
    } else {
      var image := CopyImage(m, ActiveOf(m), buf, offset, len);
      if ActiveOf(m) == NUM_BLOCKS {
        UnmarkedCopyCutImage(m, image, j);
      } else {
        CopyCutImage(m, image, j);
      }
    }
  }

  /** In the life of an EEPROM requests are served, and the power fails during writes and
      during the start-ups that follow. */
  datatype Event =
    | Request(request: Request)
    | PowerCut(buf: seq<Byte>, offset: nat, len: nat, k: nat, cuts: seq<nat>)

  predicate ProperEvent(e: Event) {
    match e
    case Request(r) => Proper(r)
    case PowerCut(buf, offset, len, _, _) => Proper(WriteAt(buf, offset, len))
  }

  function Happen(m: seq<Byte>, e: Event): (r: seq<Byte>)
    requires |m| == FLASH_SIZE && ProperEvent(e)
    ensures |r| == FLASH_SIZE
  {
    match e
    case Request(r) => Serve(m, r).0
    case PowerCut(buf, offset, len, k, cuts) => Reboot(Run(m, Cut(WriteCommands(m, buf, offset, len), k)), cuts)
  }

  function Live(m: seq<Byte>, es: seq<Event>): (r: seq<Byte>)
    requires |m| == FLASH_SIZE && forall e :: e in es ==> ProperEvent(e)
    ensures |r| == FLASH_SIZE
    decreases |es|
  {
    if es == [] then m else Live(Happen(m, es[0]), es[1..])
  }

  /** Over its whole life the EEPROM stays in a state from which every write is known. */
  lemma {:induction false} LifeKeepsStarted(m: seq<Byte>, es: seq<Event>)
    requires Started(m) && forall e :: e in es ==> ProperEvent(e)
    ensures Started(Live(m, es))
    decreases |es|
  {
    hide Happen, Started;
    if es != [] {
      EventKeepsStarted(m, es[0]);
      LifeKeepsStarted(Happen(m, es[0]), es[1..]);
    }
  }

  lemma EventKeepsStarted(m: seq<Byte>, e: Event)
    requires Started(m) && ProperEvent(e)
    ensures Started(Happen(m, e))
  {
    hide Run, ScanCommands, Marked, InitCommands, Reboot, Restarted, InPlace, CopyImage, CopyCommands,
         InPlaceCommands, ActiveBlock;
    MarkedScan(m);
    RunNone(m);
    match e
    case Request(r) =>
      if r.WriteAt? && r.offset < DATA_LEN {
        WriteStoresExactly(m, r.buf, r.offset, r.len);
      }
    case PowerCut(buf, offset, len, k, cuts) =>
      if offset < DATA_LEN {
        CrashFromAnyStart(m, buf, offset, len, k, cuts);
      } else {
        RebootIsRestart(m, cuts);
      }
  }

  /** So at any point of that life, a write stores its bytes exactly under the condition
      `Stores`, which a reader of the flash can check beforehand. */
  lemma WriteLaterInLife(m: seq<Byte>, es: seq<Event>, buf: seq<Byte>, offset: nat, len: nat)
    requires Started(m) && forall e :: e in es ==> ProperEvent(e)
    requires offset < DATA_LEN && len < WORD16 && Clamp(offset, len) <= |buf|
    ensures var now := Live(m, es);
            && Started(now)
            && (WrittenImage(now, buf, offset, len) == Splice(ReadImage(now), offset, buf[..Clamp(offset, len)])
                <==> Stores(now, buf, offset, len))
  {
    hide Live, Started, Stores, WrittenImage;
    LifeKeepsStarted(m, es);
    WriteStoresExactly(Live(m, es), buf, offset, len);
  }
}
