# Verified model of the XBee module firmware drivers

Dafny models of the drivers in `pxbee/` that hold real algorithms, with proofs of what these
drivers are for. Code that changes state is a method, with the loops of the original, proved
against a function; the properties are lemmas about those functions.

    dafny verify dfyconfig.toml

## What is modelled

- **Virtual EEPROM** (`Flash`, `VirtualEeprom`, `EepromRecovery`, `EepromSafety`, `EepromRuns`,
  `EepromLosses`). Two flash pages that can only clear bits or be erased as a whole, and the
  506-byte EEPROM kept in them by copy-on-write. The device keeps a list of the commands
  executed, so a power cut is a prefix of that list. Main results: a write begun in a clean
  state is atomic under a cut at any command, followed by any number of cut restarts and a
  complete one; over every run of reads and writes the two pages answer like one array, exactly
  as long as every write fits; and over a whole life with power cuts anywhere it is known
  exactly, before every write, whether the write will store its bytes. The clean state says: both
  marks present, at most one block active, the other one blank, and both blank when none is
  active.
- **1-Wire** (`Crc8`, `CrcPolynomial`, `RomTrie`, `OneWireBus`, `RomSearch`, `RomExamples`). The bus is a set of
  64-bit codes with wired-AND reads. The search is an iterative walk over the tree of codes
  steered by an 8-bit path; it is proved to return the first valid codes in order, each once.
  The CRC is proved to be the remainder of the message modulo x^8 + x^5 + x^4 + 1, to be linear, and
  to detect every burst of up to eight bits.
- **Graphic display** (`LineRaster`, `CircleRaster`, `GraphicDisplay`). Every drawing routine
  paints exactly the pixel set it stands for, on the panel and on the shadow copy. Lines are
  within half a pixel of the ideal line, rectangles are outlines, and circles are the nearest
  pixels to the ideal circle.
- **Clock and calendar** (`Calendar`, `Rtc`, `RtcTime`, `RtcAlarm`, `Ds1904`, `Sleep`). The calendar step adds one
  second to a day-by-day count; the two ways of counting uptime agree over every run of ticks
  and mode switches; alarms and the periodic task come when they are due and at no other time,
  across switches too; sleeping ends in time; and dates and seconds are converted into each other.
- **Interrupts, buffers and ports** (`EdgeIrq`, `CircularBuffer`, `Uart`, `SpiEeprom`,
  `LineEditor`, `TimerModulo`), with `Bits`, `Words` and `Arithmetic`
  underneath.

Constants and layouts that a specification and its method share are also stated once in plain
numbers, in the lemmas named `...InBytes`, `...InBits`, `...InNumbers` and `Known...`.

The drivers are modelled each in its own configuration; no single build has them all. The EEPROM
is the one for up to 32 KB of flash, where addresses need no paging. The display is display 0 with
pixel drawing, which the source compiles only for more than 32 KB. The clock has calendar, alarm,
periodic task and power management with the uptime kept; the timers run at 48 MHz with the bus
clock at half of it.

## What the code does not do as documented

Each of these is proved, with the exact condition under which the code is right; for the
conditions that are hard to meet by eye there is also an input for which it is not.

- `veeprom_write` computes the end of the range as a signed 16-bit number. When the data must
  be copied and `offset + len` exceeds 0x7FFF it reports success and stores nothing
  (`WriteRefinesFlatArray`, `LongWriteIsLost`).
- `veeprom_init` returns 4, not 0, after it has formatted a block (`Init`).
- An interrupted copy leaves data in the spare block that restarting does not remove, and the
  next copy is combined with it (`WriteAfterCutCopy`, `CutCopyExample`). An interrupted first
  write leaves no block active; a later write is then stored exactly if it is done in place, and
  otherwise reports success and is lost, because block index 2 means the second block to the
  reader and the first to the eraser (`WriteAfterCutFirstWriteIsLost`, `CutFirstWriteExample`).
- `one_wire_search` can find every device exactly when none lies behind more than eight forks
  (`EightForksAreTheLimit`, `TenDevicesCanBeTooMany`). It sticks at the first code behind more
  (`DeepCodeRepeats`): it stops if that is the very first code of all (`OneOfTenIsFound`),
  fills the list with it if it checks and no more than 31 codes are wanted, and otherwise never
  ends (`Search`, `SearchNeverEnds`).
  Its 8-bit buffer index overflows when more than 31 codes are wanted and some device has 32
  valid codes in front of it (`ThirtyThreeDevicesAreTooMany`). A `len` of 0 does one pass and
  may store one code.
- `lcd_graphic_write_circle` draws the circle exactly for radii up to 76, 82 and 83; otherwise
  the 8-bit decision variable wraps (`CircleIsRightExactlyWhenDrawable`), and the screen shows it
  (`CircleIsIdealExactly`).
- `lcd_graphic_write_box` is documented with two corner points but leaves out row `y1`, and
  draws nothing when `y0 >= y1`. `lcd_graphic_init` clears the panel and not the shadow copy,
  so the two agree afterwards only if the shadow was blank (`Driver.Init`).
- `ds1904_date_convert` is the epoch in seconds, modulo 2^32, exactly for the years 1971 to
  2149: a 16-bit subtraction makes 1970 come out 65536 days late.
  `ds1904_date_update` assumes 365-day years, and recovers a date exactly when the days since
  New Year plus the leap days since 1970 are fewer than 365.
- Time is lost exactly when a fast tick finds the 16-bit tick counter full, or a switch from slow
  to fast ticks makes it wrap or reads the running counter differently the second time
  (`RunConservesExactly`). 131 switches between fast ticks are always safe; 132 need not be
  (`OneSwitchTooMany`). The date follows the uptime exactly as long as no fast tick carries more
  than two seconds (`RunInStepExactly`); two switches before a fast tick are already too many
  (`TwoSwitchesSlip`).
- In slow mode the periodic task misses its time exactly for periods above 4294967000 ticks, whose
  count wraps first (`PeriodicTaskExactly`, `ReachablePeriods`). The three largest never come
  (`LargestPeriodsNeverRun`), the others at some other time (`OtherPeriodsRun`).
- `rtc_set_alarm` accepts dates that do not exist; such an alarm never fires. Nor does one that
  `rtc_set_date` moves the date past (`AlarmAfterDateIsSet`).
- A sleep that should end at uptime 2^32, or one of an odd number of seconds that should end
  at 2^32 - 1, is not over by then (`SleepIsBounded`, `UntimelySleepIsLonger`). The clock ends a
  sleep of more than two seconds before its last tick exactly when it should end beyond 2^32
  and the next tick comes before 2^32; then it is over at that tick (`EarlyTimeoutExactly`, `WrapWakesEarly`).
- The pin interrupt handler does not ask whether a pin is enabled: a disabled pin is served, and
  its handler called, when another one interrupts (`DisabledPinsAreServed`).
- `eeprom_spi_write` treats readiness at the hundredth poll as a timeout. Called while the device
  is still busy it reports success without its first chunk (`Write`), as happens after a timeout
  if the device needs more than 100 polls (`WriteTwice`). The range error it documents does not
  exist in the code: addresses wrap.
- `get_line` returns the length including the terminating zero. As that is computed in 8 bits,
  a full line of 255 characters is returned as 0, "no line yet". All lines are right exactly for
  limits from 2 to 256 (`LimitsThatWork`): with a limit of 1 it writes beyond the line
  (`LimitOneWritesBeyond`), and beyond 256 a line of 256 characters starts over at its front,
  while shorter ones are still right (`ShortLinesAreTaken`).
- `tpm_set_prescaler` accepts periods that need one count more than the register holds; the
  period set is then almost 0 (`RoundTripExactlyWhenItFits`, `LongestPeriodDoesNotFit`).

## Model

| member | source | states |
|---|---|---|
| EepromSafety.CrashAtomicity | pxbee/drivers/eeprom/veeprom.c:216-278 | Cut power after any number of the commands of a write begun in a clean state, restart with any number of cut restarts: a copying write is seen whole or not at all, with the command at which it switches; an in-place write is seen as a prefix of the new bytes |
| EepromSafety.WriteStoresExactly | pxbee/drivers/eeprom/veeprom.c:216-278 | In any state after a start-up, a write stores its bytes if and only if it is done in place, or some block is active, offset + len is at most 0x7FFF and the spare block has no cleared bit that the image needs; and exactly what is read otherwise |
| EepromSafety.WriteRefinesFlatArray | pxbee/drivers/eeprom/veeprom.c:216-278 | A write keeps the clean state and stores its bytes if and only if it is done in place or offset + len is at most 0x7FFF; otherwise the image is unchanged |
| EepromRuns.ServeRefinesExactly | pxbee/drivers/eeprom/veeprom.c:183-278 | Any read or write of a clean EEPROM is answered as by a plain array, and leaves the same image if and only if it is not a copying write beyond 0x7FFF |
| EepromRuns.RunRefinesFlatArray | pxbee/drivers/eeprom/veeprom.c:183-278 | Over every run of reads and writes that fit, from a clean state, every reply and the image are those of one plain array, and the state stays clean |
| EepromRuns.RunAgreesExactly | pxbee/drivers/eeprom/veeprom.c:183-278 | The image is that of the array throughout a run if and only if every write fits when its turn comes |
| EepromRuns.EepromIsFlatArray | pxbee/drivers/eeprom/veeprom.c:183-305 | The same from the first start-up on unmarked flash, however often it was cut, with an array of 0xFF |
| EepromRuns.CrashFromAnyStart | pxbee/drivers/eeprom/veeprom.c:216-305 | A write begun in any state after a start-up, cut at any command and restarted, gives exactly the old image, a prefix, or what was programmed, and the EEPROM starts again |
| EepromRuns.StartsWhenSound | pxbee/drivers/eeprom/veeprom.c:287-305 | After a start-up no active byte is half programmed if and only if none was in a marked block |
| EepromRuns.LifeKeepsStarted | pxbee/drivers/eeprom/veeprom.c:138-305 | Over every life of requests and power cuts, with cut restarts, the marks and active bytes stay whole |
| EepromRuns.WriteLaterInLife | pxbee/drivers/eeprom/veeprom.c:216-278 | So at every point of such a life a write stores its bytes if and only if the condition of WriteStoresExactly holds |
| EepromSafety.FormatIsClean | pxbee/drivers/eeprom/veeprom.c:287-305 | Start-up on unmarked flash gives a clean, blank EEPROM |
| EepromSafety.InPlaceCutImage | pxbee/drivers/eeprom/veeprom.c:244-253 | From any state after a start-up, an in-place write cut after k commands reads as the old image with k new bytes; whole, it is clean if the spare block was blank |
| EepromSafety.CopyCutImage | pxbee/drivers/eeprom/veeprom.c:254-275 | A copy cut after k commands restarts to the old image or to what was programmed over the spare block, with the exact contents of the new spare block; clean once the erase has begun |
| EepromSafety.UnmarkedCopyCutImage | pxbee/drivers/eeprom/veeprom.c:254-275 | Without an active block a cut copy is read only if the cut falls between mark and erase |
| EepromSafety.CopyImageIsSplice | pxbee/drivers/eeprom/veeprom.c:258-269 | The copied image is the intended one exactly when offset + len fits 15 bits, else it is the old one |
| EepromSafety.CopyNeedsActiveBlock | pxbee/drivers/eeprom/veeprom.c:230-254 | In a clean state the copy branch is never taken without an active block |
| EepromLosses.CopyOverLeftovers | pxbee/drivers/eeprom/veeprom.c:254-275 | Copying over whatever the spare block holds stores the bitwise and of both, hence the image if and only if it needs no cleared bit, and leaves a clean state |
| EepromLosses.CutCopyLeaves | pxbee/drivers/eeprom/veeprom.c:216-278 | For every place at which a copy from a clean state is cut: what is read after the restart and what the spare block holds |
| EepromLosses.WriteAfterCutCopy | pxbee/drivers/eeprom/veeprom.c:216-278 | After every such cut before the erase, the next write stores its bytes if and only if it is done in place, or ends below 2^15 and needs no bit cleared in the spare block; a copy leaves a clean state |
| EepromSafety.CopyWithoutActiveBlockIsLost | pxbee/drivers/eeprom/veeprom.c:98-115 | A copy without an active block is erased again: the image does not change |
| EepromLosses.WriteAfterCutFirstWriteIsLost | pxbee/drivers/eeprom/veeprom.c:216-278 | After a cut first write, a write stores its bytes if and only if it is done in place, and then leaves a clean state; otherwise the image does not change |
| EepromLosses.LongWriteIsLost | pxbee/drivers/eeprom/veeprom.c:254-265 | A write with offset + len of 0x8000 to a clean device that is reported as done and not stored |
| EepromLosses.CutFirstWriteExample | pxbee/drivers/eeprom/veeprom.c:216-278 | A cut first write and a second one that is lost |
| EepromLosses.CutCopyExample | pxbee/drivers/eeprom/veeprom.c:216-278 | A cut copy and a write of one byte that destroys 505 others |
| EepromRecovery.EraseCut | pxbee/drivers/eeprom/veeprom.c:106-123 | Any prefix of a block erase leaves that block with some mark bytes and nothing else, and the other block alone |
| EepromRecovery.InitCut | pxbee/drivers/eeprom/veeprom.c:287-305 | A start-up cut anywhere leaves each block as it was, or partly erased if it was damaged before |
| EepromRecovery.RestartedBlocks | pxbee/drivers/eeprom/veeprom.c:287-305 | A complete start-up keeps marked blocks and formats the others |
| EepromRecovery.RestartAfterCut | pxbee/drivers/eeprom/veeprom.c:287-305 | Cutting a start-up short does not change what the next one arrives at |
| EepromRecovery.RebootIsRestart | pxbee/drivers/eeprom/veeprom.c:287-305 | Nor do any number of cut start-ups |
| VirtualEeprom.EraseBlock | pxbee/drivers/eeprom/veeprom.c:106-123 | Issues one page erase and the four mark bytes, with the index clamped to block 0 |
| VirtualEeprom.MarkActive | pxbee/drivers/eeprom/veeprom.c:125-136 | Programs the active byte, index 2 meaning the second block |
| VirtualEeprom.RepairBlock | pxbee/drivers/eeprom/veeprom.c:147-153 | Formats a block exactly when its mark is damaged |
| VirtualEeprom.GetActiveBlock | pxbee/drivers/eeprom/veeprom.c:138-160 | Finds the active block, or index 2, repairing on the way; the commands issued are those of the specification |
| VirtualEeprom.Read | pxbee/drivers/eeprom/veeprom.c:183-204 | Delivers the clamped part of the image into the buffer and leaves the rest of the buffer alone; error case changes nothing |
| VirtualEeprom.CopyOut | pxbee/drivers/eeprom/veeprom.c:199-202 | The byte loop delivers the flash bytes |
| VirtualEeprom.ExceedsInPlace | pxbee/drivers/eeprom/veeprom.c:233-242 | Decides exactly whether some bit would have to be set |
| VirtualEeprom.WriteInPlace | pxbee/drivers/eeprom/veeprom.c:244-253 | The commands of the in-place branch, in order |
| VirtualEeprom.CopyOver | pxbee/drivers/eeprom/veeprom.c:256-269 | The copy loop programs the copied image, reading a block that its own programming does not touch |
| VirtualEeprom.WriteCopy | pxbee/drivers/eeprom/veeprom.c:254-275 | The commands of the copy branch, in order: image, mark, erase |
| VirtualEeprom.Write | pxbee/drivers/eeprom/veeprom.c:216-278 | For any flash contents, exactly the commands issued and the value returned |
| VirtualEeprom.Init | pxbee/drivers/eeprom/veeprom.c:287-305 | For any flash contents, exactly the commands issued, and the value returned |
| VirtualEeprom.LayoutInBytes | pxbee/drivers/eeprom/veeprom.c:69-98 | Where mark, active byte and data of the two blocks are, and which bytes they are |
| VirtualEeprom.CommandsInBytes | pxbee/drivers/eeprom/veeprom.c:106-136 | The commands that format a block and mark it active, in bytes, for every index that occurs |
| VirtualEeprom.WritesInBytes | pxbee/drivers/eeprom/veeprom.c:244-275 | The commands of the two kinds of writes to a device with the second block active, in bytes |
| Flash.RunPrograms | pxbee/cpu/flash.c:146-183 | Programming a range clears bits inside the range and touches nothing else |
| Flash.FlashDevice.ProgramBuffer | pxbee/cpu/flash.c:146-183 | Programs the whole buffer, byte by byte in order, and returns its length |
| Flash.FlashDevice.ProgramByte | pxbee/cpu/flash.c:193-196 | One byte-program command |
| Flash.FlashDevice.ErasePageAt | pxbee/cpu/flash.c:230-258 | One page-erase command |
| Flash.CommandsOnBytes | pxbee/cpu/flash.c:146-258 | What programming and erasing make of single bytes |
| Crc8.CrcCheck | pxbee/drivers/1-wire/one_wire.c:324-340 | The two nested loops compute the CRC of the buffer |
| CrcPolynomial.CrcIsRemainder | pxbee/drivers/1-wire/one_wire.c:324-340 | For every buffer the CRC, and no other byte, is the remainder of its bits, lowest first, modulo x^8 + x^5 + x^4 + 1 |
| CrcPolynomial.ShiftedBit | pxbee/drivers/1-wire/one_wire.c:331-336 | One shift moves every bit down by one and changes bits 2, 3 and 7 if the bit that leaves differs from that of the message |
| CrcPolynomial.KnownCode | pxbee/drivers/1-wire/one_wire.c:324-340 | A code of the 1-Wire literature has CRC 0 |
| Crc8.CrcLinear | pxbee/drivers/1-wire/one_wire.c:324-340 | The CRC is linear over exclusive or, for buffers of equal length |
| Crc8.SealedBufferChecks | pxbee/drivers/1-wire/one_wire.c:324-340 | A buffer followed by its CRC has CRC 0 |
| Crc8.ErrorCheck | pxbee/drivers/1-wire/one_wire.c:324-340 | The CRC of a valid buffer with errors is that of the error pattern |
| Crc8.BurstIsDetected | pxbee/drivers/1-wire/one_wire.c:324-340 | Every burst of up to eight bits, at any bit position of a valid buffer of any length, gives a nonzero result |
| Crc8.SingleBitIsDetected | pxbee/drivers/1-wire/one_wire.c:324-340 | So does every single flipped bit |
| RomTrie.LeftmostIsFirst | pxbee/drivers/1-wire/one_wire.c:376-404 | The pass with path 0 ends at the first code in sending order |
| RomTrie.PassFindsNext | pxbee/drivers/1-wire/one_wire.c:376-411 | A pass that ends behind at most eight forks leaves path 0 if it ended at the last code, and otherwise a path whose pass ends at the next code |
| RomTrie.DeepPassSticks | pxbee/drivers/1-wire/one_wire.c:385-391 | A pass that ends behind more leaves its own path for the next pass |
| RomTrie.NinthForkHidesACode | pxbee/drivers/1-wire/one_wire.c:385-391 | If some code lies behind nine forks there is a code at which no pass ends |
| RomTrie.EightForksAreTheLimit | pxbee/drivers/1-wire/one_wire.c:385-391 | Every device can be reached by some path if and only if none lies behind more than eight forks |
| OneWireBus.Bus.Reset | pxbee/drivers/1-wire/one_wire.c:115-135 | Presence, no device and a shorted bus are told apart |
| OneWireBus.ReadsTellForks | pxbee/drivers/1-wire/one_wire.c:380-391 | The two reads tell exactly which bit values occur among the listening devices, and are never both 1 |
| OneWireBus.SearchCommand | pxbee/headers/one_wire.h:62 | The ROM search command |
| RomSearch.ChooseBit | pxbee/drivers/1-wire/one_wire.c:380-391 | The bit sent, the marker and the next path are those of the walk through the tree |
| RomSearch.StoreBit | pxbee/drivers/1-wire/one_wire.c:394-402 | After every bit the buffer and the partial byte hold the bits that all listening devices share |
| RomSearch.SearchBit | pxbee/drivers/1-wire/one_wire.c:380-403 | Every bit keeps the pass on the way to the code and the next path that its path decides |
| RomSearch.SearchPass | pxbee/drivers/1-wire/one_wire.c:376-404 | A pass stores the code its path leads to, computes the next path and never collides, for every set of devices |
| RomSearch.FindOne | pxbee/drivers/1-wire/one_wire.c:371-410 | One pass with its check: the code is stored, and counted or overwritten |
| RomSearch.Search | pxbee/drivers/1-wire/one_wire.c:351-415 | Terminates, and returns the first min(len, n) valid codes in order, each once, if and only if the 8-bit buffer index fits, unless it sticks; where it sticks, exactly what it returns; the reset errors otherwise |
| RomSearch.StuckIsWrong | pxbee/drivers/1-wire/one_wire.c:351-415 | What it returns when it sticks is right if and only if the code is the very first and no other code is valid |
| RomSearch.ShallowNeverSticks | pxbee/drivers/1-wire/one_wire.c:385-391 | Without codes behind more than eight forks it always ends and never sticks |
| RomSearch.SearchNeverEnds | pxbee/drivers/1-wire/one_wire.c:376-413 | At a code behind more that is not the first, the loop goes on after any number of passes if the code does not check or more than 31 codes are wanted |
| RomSearch.DeepCodeRepeats | pxbee/drivers/1-wire/one_wire.c:376-413 | From a code behind more than eight forks on, every further pass ends at the same code |
| RomExamples.ThirtyThreeDevicesAreTooMany | pxbee/drivers/1-wire/one_wire.c:370-413 | 32 devices whose numbers fit the index, and 33 devices with valid codes, told apart by their first byte, with which it overflows |
| RomExamples.TenDevicesCanBeTooMany | pxbee/drivers/1-wire/one_wire.c:385-391 | Ten devices with valid codes of which one can never be found |
| RomExamples.OneOfTenIsFound | pxbee/drivers/1-wire/one_wire.c:376-413 | With these the search stops after the first whenever more than one is wanted |
| LineRaster.LineEnds | pxbee/drivers/lcd/graphic_display.c:355-402 | A line begins and ends at its end points |
| LineRaster.LineIsConnected | pxbee/drivers/lcd/graphic_display.c:372-401 | Every step moves by one along the longer axis and by at most one along the other |
| LineRaster.LineIsStraight | pxbee/drivers/lcd/graphic_display.c:355-402 | Every point is within half a pixel of the ideal line along the shorter axis |
| LineRaster.LineSize | pxbee/drivers/lcd/graphic_display.c:355-402 | n steps plot n different points, so a line has max(dx, dy) + 1 |
| LineRaster.HorizontalLine | pxbee/drivers/lcd/graphic_display.c:355-402 | A horizontal line is exactly the points between its ends, in either direction |
| LineRaster.VerticalLine | pxbee/drivers/lcd/graphic_display.c:355-402 | So is a vertical one |
| LineRaster.TiesMoveOn | pxbee/drivers/lcd/graphic_display.c:372-401 | Half-way between two pixels the line has already moved on |
| LineRaster.KnownLines | pxbee/drivers/lcd/graphic_display.c:355-402 | Two short lines point by point, one flat and one steep, with a tie in each |
| CircleRaster.DecisionFits | pxbee/drivers/lcd/graphic_display.c:444-450 | For every radius up to 76, 82 and 83 the decision variable stays within 8 signed bits |
| CircleRaster.LoopDrawsArc | pxbee/drivers/lcd/graphic_display.c:443-458 | From any point of the loop: only points of the ideal circle are plotted, and all of the rest of the octant are |
| CircleRaster.OctantIsArc | pxbee/drivers/lcd/graphic_display.c:434-459 | The points of the octant are exactly those nearest to the ideal circle |
| CircleRaster.CircleIsRightExactlyWhenDrawable | pxbee/drivers/lcd/graphic_display.c:434-459 | The loop draws a circle if and only if the radius is at most 76, or 82 or 83 |
| CircleRaster.KnownOctants | pxbee/drivers/lcd/graphic_display.c:434-459 | The octants of two small circles point by point |
| GraphicDisplay.Driver.GotoXY | pxbee/drivers/lcd/graphic_display.c:235-243 | Sets the cursor of panel and driver alike for coordinates on the screen, and only the driver's otherwise |
| GraphicDisplay.Driver.DataWrite | pxbee/drivers/lcd/graphic_display.c:252-272 | Changes the one byte under the cursor, and the driver's cursor still is the panel's after the column and page wrap |
| GraphicDisplay.Driver.SetClearScreen | pxbee/drivers/lcd/graphic_display.c:217-225 | Every byte of the panel is set and the cursor is back at the start |
| GraphicDisplay.Driver.Init | pxbee/drivers/lcd/graphic_display.c:188-208 | The panel is blank, and agrees with the shadow if and only if the shadow is blank |
| GraphicDisplay.Driver.WritePixel | pxbee/drivers/lcd/graphic_display.c:317-340 | Paints exactly that pixel, if on the screen; panel, shadow and picture agree |
| GraphicDisplay.Driver.PixelInRam | pxbee/drivers/lcd/graphic_display.c:317-340 | Which bit of which byte of the panel a pixel of the picture is |
| GraphicDisplay.PanelInNumbers | pxbee/headers/graphic_display.h:94-111 | Size of the panel and its two addressing commands |
| GraphicDisplay.Driver.WriteLine | pxbee/drivers/lcd/graphic_display.c:355-402 | Paints exactly the points of the line, for all end points; panel and shadow agree |
| GraphicDisplay.Driver.WriteFlatLine | pxbee/drivers/lcd/graphic_display.c:372-386 | The loop for flat lines: the error term P has its closed form at every step |
| GraphicDisplay.Driver.WriteSteepLine | pxbee/drivers/lcd/graphic_display.c:387-401 | The loop for steep lines likewise |
| GraphicDisplay.Driver.WriteRectangle | pxbee/drivers/lcd/graphic_display.c:415-421 | Paints exactly the points of RectangleIsOutline |
| GraphicDisplay.RectangleIsOutline | pxbee/drivers/lcd/graphic_display.c:415-421 | A rectangle is exactly the points between its corners that lie on one of its four sides, in whatever order the corners are given |
| GraphicDisplay.Driver.WriteBox | pxbee/drivers/lcd/graphic_display.c:472-477 | Paints exactly the columns between x0 and x1 on the rows from y0 up to but not including y1 |
| GraphicDisplay.Driver.WriteCircle | pxbee/drivers/lcd/graphic_display.c:434-459 | Paints exactly the mirrored octant points of the 8-bit loop, for every radius and centre |
| GraphicDisplay.CircleIsIdeal | pxbee/drivers/lcd/graphic_display.c:434-459 | For the radii that work and any centre on the screen that is, on the screen, the ideal circle: wrapped coordinates never show |
| GraphicDisplay.CircleIsIdealExactly | pxbee/drivers/lcd/graphic_display.c:434-459 | The screen shows the ideal circle for every centre on it, picture and colour, if and only if the radius is one of these |
| GraphicDisplay.BoxGrows | pxbee/drivers/lcd/graphic_display.c:472-477 | Each further row adds a horizontal line to the box |
| Calendar.NextDayCounts | pxbee/drivers/rtc/rtc.c:388-405 | The step past midnight gives the next valid date in a day-by-day count |
| Calendar.NextSecondCounts | pxbee/drivers/rtc/rtc.c:376-407 | `update_date` keeps dates valid and adds exactly one second |
| Calendar.DaysBeforeYearCount | pxbee/drivers/rtc/rtc.c:70-70 | For every year the day-by-day count has its closed form: 365 days a year and a day for every fourth year, less every hundredth, and every four hundredth |
| Calendar.EpochStart | pxbee/drivers/1-wire/ds1904.c:233-239 | 719528 days lie before 1970 |
| Calendar.MonthsInFull | pxbee/drivers/rtc/rtc.c:69-70 | The lengths of the months of a leap year and of another |
| Calendar.FebruaryEnds | pxbee/drivers/rtc/rtc.c:392-399 | February 2000 has 29 days, February 2100 has 28 |
| Calendar.BeforeCounts | pxbee/drivers/rtc/rtc.c:134-165 | Field-by-field order of valid dates is the order in seconds, and equal seconds mean equal dates |
| Calendar.AfterCounts | pxbee/drivers/rtc/rtc.c:376-407 | n updates add n seconds |
| Rtc.Clock.StepDate | pxbee/drivers/rtc/rtc.c:376-407 | The nested updates compute the next second of the calendar |
| Rtc.Clock.Update | pxbee/drivers/rtc/rtc.c:376-417 | The date moves on and the alarm is raised when it is reached |
| Rtc.Clock.SetAlarmTime | pxbee/drivers/rtc/rtc.c:134-165 | The nested comparisons accept exactly the lexicographically later dates |
| Rtc.Clock.CheckClockAndUpdate | pxbee/drivers/rtc/rtc.c:422-452 | The new state of every counter, in slow and in fast mode |
| Rtc.Clock.CheckPeriodic | pxbee/drivers/rtc/rtc.c:455-472 | The periodic task count, reset and wake-up |
| Rtc.Clock.GoFast | pxbee/drivers/rtc/rtc.c:299-332 | Adds the part of the slow tick that has passed to all counters, with what the counter register reads each of the three times |
| RtcTime.TickConserves | pxbee/drivers/rtc/rtc.c:422-447 | A tick keeps ms_uptime = 1000 * uptime + 4 * ticks modulo 2^32 if and only if it is not a fast one with the tick counter full |
| RtcTime.SwitchConservesExactly | pxbee/drivers/rtc/rtc.c:299-332 | A switch to fast mode keeps it if and only if the counter reads the same for milliseconds and ticks and the 16-bit tick count does not wrap |
| RtcTime.RunConservesExactly | pxbee/drivers/rtc/rtc.c:299-452 | Over any run of ticks and switches it holds throughout if and only if no event of the run is one of these |
| RtcTime.TimeIsConserved | pxbee/drivers/rtc/rtc.c:299-452 | So it holds over every run with up to 131 switches between fast ticks |
| RtcTime.OneSwitchTooMany | pxbee/drivers/rtc/rtc.c:299-332 | A run with 132 of them over which it does not |
| RtcTime.FastTickStepsDateExactly | pxbee/drivers/rtc/rtc.c:435-446 | A fast tick moves the date as far as the uptime if and only if it carries at most two seconds |
| RtcTime.RunInStepExactly | pxbee/drivers/rtc/rtc.c:299-452 | Over any run of ticks and switches the date follows the uptime throughout if and only if no fast tick carries more than two seconds |
| RtcTime.DateFollowsUptime | pxbee/drivers/rtc/rtc.c:299-452 | So it does with at most one switch between fast ticks |
| RtcTime.TwoSwitchesSlip | pxbee/drivers/rtc/rtc.c:299-452 | From any state in fast mode, a run with two switches and a tick over which it does not |
| RtcTime.DateShowsUptime | pxbee/drivers/rtc/rtc.c:299-452 | Hence the seconds shown by the date grow as the uptime does |
| RtcAlarm.AlarmAcceptedExactly | pxbee/drivers/rtc/rtc.c:134-165 | A valid alarm is accepted if and only if it lies in the future |
| RtcAlarm.AlarmFiresOnTime | pxbee/drivers/rtc/rtc.c:376-416 | Over any number of seconds, an accepted valid alarm fires at its second and at no other |
| RtcAlarm.RunUpdates | pxbee/drivers/rtc/rtc.c:376-452 | Over any run of ticks and switches, date and alarm are what the calls of update_date alone make of them |
| RtcAlarm.AlarmFiresOnTimeInRuns | pxbee/drivers/rtc/rtc.c:376-452 | Over any run of ticks and switches, an accepted valid alarm has fired once if the date has reached it, and not otherwise |
| RtcAlarm.AlarmAfterDateIsSet | pxbee/drivers/rtc/rtc.c:104-108 | After the date is set the alarm fires at its second if that is still to come, and never if it is not |
| RtcAlarm.InvalidAlarmNeverFires | pxbee/drivers/rtc/rtc.c:134-165 | An alarm that is no date never fires |
| RtcAlarm.NoAlarmAtFirst | pxbee/drivers/rtc/rtc.c:262-266 | Until an alarm is programmed none comes, whatever date is set |
| RtcAlarm.TimeoutExpiresOnTime | pxbee/drivers/rtc/rtc.c:358-373 | Over any run, a timeout has expired if and only if there were as many ticks as it was set to, in whichever mode |
| RtcAlarm.DelayEndsOnTime | pxbee/drivers/rtc/rtc.c:343-349 | So does the busy wait end if and only if there were as many ticks as it was given |
| RtcAlarm.PeriodicTaskRunsOnTime | pxbee/drivers/rtc/rtc.c:454-472 | Over any number of ticks of one mode, the periodic task runs at every tick that completes its period, rounded up to whole ticks, and at no other, if the count can reach the period |
| RtcAlarm.PeriodicTaskExactly | pxbee/drivers/rtc/rtc.c:454-472 | It is on time for every number of ticks if and only if that is so |
| RtcAlarm.ReachablePeriods | pxbee/drivers/rtc/rtc.c:454-472 | That is so in fast mode always, and in slow mode up to a period of 4294967000 ticks |
| RtcAlarm.LargestPeriodsNeverRun | pxbee/drivers/rtc/rtc.c:454-472 | In slow mode the three largest periods never come |
| RtcAlarm.OtherPeriodsRun | pxbee/drivers/rtc/rtc.c:454-472 | All others do, sooner or later |
| RtcAlarm.MsIsElapsed | pxbee/drivers/rtc/rtc.c:299-447 | Over any run of ticks and switches ms_uptime grows by the time that has passed: 4 ms a fast tick, 2000 ms a slow one, 16 ms a count read at a switch |
| RtcAlarm.CountIsElapsed | pxbee/drivers/rtc/rtc.c:299-472 | So does the periodic count, in ticks of 4 ms, as long as the task does not run and a switch reads the same for both |
| RtcAlarm.CountFollowsUptime | pxbee/drivers/rtc/rtc.c:299-472 | Hence the two grow alike modulo 2^32 |
| RtcAlarm.TaskRunsWhenDue | pxbee/drivers/rtc/rtc.c:299-472 | Over any run of ticks and switches the periodic task has run if and only if some tick found that its period had passed; until then switches read the same for both, and the count does not reach 2^32 |
| Ds1904.DateConvert | pxbee/drivers/1-wire/ds1904.c:183-240 | The loops compute the seconds since 1970, with the 16-bit wrap of the day count and the error for years before 1970 and wrong months |
| Ds1904.ConvertRejects | pxbee/drivers/1-wire/ds1904.c:191-231 | The value returned for years before 1970 and months that do not exist |
| Ds1904.ConvertIsEpochExactlyFrom1971To2149 | pxbee/drivers/1-wire/ds1904.c:233-239 | For valid dates from 1970 on the result is the day-by-day epoch modulo 2^32 if and only if the year is between 1971 and 2149 |
| Ds1904.EpochFits | pxbee/drivers/1-wire/ds1904.c:183-240 | Up to 2105 the epoch fits 32 bits |
| Ds1904.ConvertFollowsTheCalendar | pxbee/drivers/1-wire/ds1904.c:183-240 | From 1971 to 2105 the conversion grows by one with every calendar second and is strictly increasing |
| Ds1904.Clock.DateUpdate | pxbee/drivers/1-wire/ds1904.c:249-314 | A read error is returned and changes nothing; otherwise the loop and the divisions compute time of day, year and day of the year from the seconds, month and day from the table of months |
| Ds1904.Clock.SetMonthAndDay | pxbee/drivers/1-wire/ds1904.c:275-311 | The chain of comparisons finds the month by whose end the day has passed and not the one before, and changes nothing when there is none |
| Ds1904.NoMonthChangesNothing | pxbee/drivers/1-wire/ds1904.c:275-311 | A day beyond the end of the year is in no month, and month and day stay as they were |
| Ds1904.MonthAndDayInverts | pxbee/drivers/1-wire/ds1904.c:275-311 | Month and day are found again from the day of the year, in every year |
| Ds1904.UpdateInvertsEpochExactlyWithoutDrift | pxbee/drivers/1-wire/ds1904.c:261-311 | From 1970 to 2105 the date is recovered from its epoch if and only if day of the year plus leap days since 1970 is below 365 |
| Ds1904.RoundTripExactly | pxbee/drivers/1-wire/ds1904.c:183-311 | Converting and back gives the same date if and only if that holds and the year is not 1970 |
| Ds1904.KnownDate | pxbee/drivers/1-wire/ds1904.c:183-311 | 1 January 2010 is 1262304000, and back |
| Ds1904.DriftInDays | pxbee/drivers/1-wire/ds1904.c:261-311 | What becomes of the last two days of 1980 |
| Sleep.StopMode | pxbee/cpu/pm.c:155-165 | The stop loop takes interrupts up to the first that sets a wake-up source, and no further |
| Sleep.FirstSourceIsReported | pxbee/cpu/pm.c:161-164 | The wake-up source reported is the first one raised |
| Sleep.SleepIsBounded | pxbee/cpu/pm.c:155-165 | A sleep of n seconds takes at most ceil(n / 2) slow ticks, whatever other interrupts come, for every uptime at which the wake-up time can be told |
| Sleep.UntimelySleepIsLonger | pxbee/cpu/pm.c:155-165 | For the other uptimes it does not end by then if nothing else wakes it |
| Sleep.SleepWithoutTime | pxbee/cpu/pm.c:155-165 | The clock alone never ends a sleep of 0 seconds |
| Sleep.NoEarlyTimeout | pxbee/cpu/pm.c:155-165 | Unless the sleep should end beyond 2^32 and the next tick comes before, the clock never ends it before its last tick |
| Sleep.WrapWakesEarly | pxbee/cpu/pm.c:155-165 | If so, it ends at the first tick |
| Sleep.EarlyTimeoutExactly | pxbee/cpu/pm.c:155-165 | Some run has a timeout before the last tick if and only if that is so and the sleep has more than one tick |
| EdgeIrq.Bank.ConfigIrq | pxbee/drivers/gpio/gpios.c:443-475 | Configures one pin, arming an edge pin for the opposite of its level; the other pins of the bank are unchanged, and all are if the pin is not for general use |
| EdgeIrq.Bank.ServicePin | pxbee/drivers/gpio/gpios.c:712-723 | One pin is served on its own: toggled and its handler called on the active slope, or called on the level |
| EdgeIrq.Bank.GpioIsr | pxbee/drivers/gpio/gpios.c:706-815 | All pins of a bank are sampled together and independently |
| EdgeIrq.Isr | pxbee/drivers/gpio/gpios.c:694-866 | So they are in both banks, each if its flag is set |
| EdgeIrq.CallsCountEdges | pxbee/drivers/gpio/gpios.c:683-722 | Over every level sequence the armed level is the opposite of the last one sampled and the calls are the inactive-to-active transitions |
| EdgeIrq.ChangeIsPending | pxbee/drivers/gpio/gpios.c:683-693 | An interrupt is pending exactly while the level differs from the last one sampled |
| EdgeIrq.CallsCountLevels | pxbee/drivers/gpio/gpios.c:720-720 | A level pin is called once for every sample showing the level |
| EdgeIrq.DisabledPinsAreServed | pxbee/drivers/gpio/gpios.c:694-723 | Over every level sequence sampled, a pin is served alike whether it is enabled or not |
| CircularBuffer.FullAndEmpty | pxbee/misc/cbuffer.c:42-65 | The index tests tell empty and full exactly; space and contents add up to length less one |
| CircularBuffer.AppendContents | pxbee/misc/cbuffer.c:67-75 | Appending adds at the end, or nothing when full |
| CircularBuffer.AdvanceContents | pxbee/misc/cbuffer.c:90-98 | Advancing removes the oldest byte and keeps the rest in order |
| CircularBuffer.CBuf.constructor | pxbee/misc/cbuffer.c:34-40 | A new ring is empty |
| CircularBuffer.CBuf.CountData | pxbee/misc/cbuffer.c:42-45 | The number of bytes held, with the 8-bit index difference |
| CircularBuffer.CBuf.CountSpace | pxbee/misc/cbuffer.c:47-50 | The number of bytes that can still be appended |
| CircularBuffer.CBuf.IsEmpty | pxbee/misc/cbuffer.c:52-55 | True exactly when nothing is held |
| CircularBuffer.CBuf.Flush | pxbee/misc/cbuffer.c:57-60 | Empties the ring without moving the consumer's index |
| CircularBuffer.CBuf.IsFull | pxbee/misc/cbuffer.c:62-65 | True exactly when one more byte does not fit |
| CircularBuffer.CBuf.AppendByte | pxbee/misc/cbuffer.c:67-75 | Contents grow at the end, or stay when full |
| CircularBuffer.CBuf.Get | pxbee/misc/cbuffer.c:77-88 | Delivers the oldest byte, or an error and no change when empty |
| CircularBuffer.CBuf.GetNoCheck | pxbee/misc/cbuffer.c:90-98 | Delivers and removes the oldest byte |
| Uart.Read | pxbee/drivers/serial/uart.c:217-230 | Delivers the oldest min(held, len) bytes in order and keeps the rest |
| Uart.StartsEmpty | pxbee/misc/cbuffer.c:34-40 | An empty ring satisfies the invariant of the interleaving |
| Uart.TakeKeeps | pxbee/drivers/serial/uart.c:217-265 | Every step of reader and interrupt handler keeps delivered ++ held == accepted, the count sampled by the reader never being too large |
| Uart.NothingLostOrReordered | pxbee/drivers/serial/uart.c:217-265 | Over every interleaving: nothing is lost or reordered, the ring holds at most its length less one, no byte is fetched from an empty ring |
| Uart.RefusedOnlyWhenFull | pxbee/drivers/serial/uart.c:240-261 | A byte is refused only when the ring is full |
| Uart.CallDelivers | pxbee/drivers/serial/uart.c:217-265 | From an idle reader to the end of the call, over every interleaving, exactly the oldest min(len, n) bytes are delivered, n being the number held when the call began |
| Uart.CallDeliversExactly | pxbee/drivers/serial/uart.c:217-265 | And at every step in between a prefix of these |
| Uart.ErrorsAreDropped | pxbee/drivers/serial/uart.c:256-259 | A byte received with an error is dropped and changes nothing |
| SpiEeprom.AddressArrives | pxbee/drivers/eeprom/25xxxx.c:164-174 | The address bytes sent decode to the address modulo the address width |
| SpiEeprom.AddressInBytes | pxbee/drivers/eeprom/25xxxx.c:164-174 | Address bytes are sent with the highest first |
| SpiEeprom.WaitReady | pxbee/drivers/eeprom/25xxxx.c:196-206 | The poll succeeds if and only if the device is busy for at most 98 polls, and how long it is still busy otherwise |
| SpiEeprom.ChunkIsPut | pxbee/drivers/eeprom/25xxxx.c:176-192 | A chunk that stays inside its page is stored flat although the device wraps within pages |
| SpiEeprom.PageWraps | pxbee/drivers/eeprom/25xxxx.c:176-192 | The device model: a transaction that runs over the end of its page goes on at the front of that page |
| SpiEeprom.WriteChunk | pxbee/drivers/eeprom/25xxxx.c:164-206 | A chunk arrives whole and within its page, unless the device is busy, when it is dropped although success is reported |
| SpiEeprom.Write | pxbee/drivers/eeprom/25xxxx.c:149-221 | A device that wraps within pages and needs enabling for each write ends up with the data stored flat, no transaction crosses a page, and the length is returned; the exact result for a slow device and for one that is still busy |
| SpiEeprom.Read | pxbee/drivers/eeprom/25xxxx.c:307-361 | Delivers the bytes of the range in chunks that join without gap; error exactly for a device that stays busy |
| SpiEeprom.WriteTwice | pxbee/drivers/eeprom/25xxxx.c:149-221 | A second write after a timeout that reports success and stores nothing |
| SpiEeprom.PutIsSplice | pxbee/drivers/eeprom/25xxxx.c:149-221 | Storing flat is a splice, for ranges inside the memory |
| SpiEeprom.FetchInvertsPut | pxbee/drivers/eeprom/25xxxx.c:149-361 | Reading gives back what was written, also for ranges that wrap |
| LineEditor.Editor.PutChar | pxbee/misc/utils.c:62-84 | One character changes the memory and the 8-bit position as specified, for every limit |
| LineEditor.Editor.ReadLine | pxbee/misc/utils.c:61-94 | The loops leave memory, position, result and unread characters as specified, for every limit; in blocking mode for all that ever arrives, waiting exactly while there is no whole line |
| LineEditor.Editor.GetLine | pxbee/misc/utils.c:52-94 | A call takes the characters of one line, in blocking mode waiting for them, leaves the rest, and its result and buffer are those of the line, as long as the line stays below 256 characters; 0 also for a full line of 255; nothing changes without a buffer |
| LineEditor.CallTypes | pxbee/misc/utils.c:52-94 | A call does to the stream what typing its characters does |
| LineEditor.ChunkingDoesNotMatter | pxbee/misc/utils.c:52-94 | However characters and calls are interleaved, the lines returned and the rest come out of the stream as a whole |
| LineEditor.LinesOfTheStream | pxbee/misc/utils.c:52-94 | Once everything is taken the lines returned are exactly those of the stream |
| LineEditor.ShortLinesAreTaken | pxbee/misc/utils.c:61-94 | For every limit from 2 on, a line that stays below 256 characters is in memory as it was typed, and nothing is written from the limit on |
| LineEditor.LimitsThatWork | pxbee/misc/utils.c:79-90 | That holds for all lines, memories and streams if and only if the limit is between 2 and 256 |
| LineEditor.LimitOneWritesBeyond | pxbee/misc/utils.c:79-90 | With a limit of 1, a letter and a carriage return write beyond the one place there is |
| LineEditor.LimitFails | pxbee/misc/utils.c:79-90 | A stream that fails for a limit of 1, and one that fails for every limit above 256 |
| LineEditor.KeysInBytes | pxbee/misc/utils.c:63-90 | What backspace and carriage return do, in bytes |
| LineEditor.OtherKeysInBytes | pxbee/misc/utils.c:63-90 | A backspace at the start is ignored; delete and line feed are ordinary bytes |
| LineEditor.LinesEndWithZero | pxbee/misc/utils.c:79-90 | What a line looks like in memory |
| LineEditor.LineEndsAtLimit | pxbee/misc/utils.c:79-93 | With room for four bytes a line ends after three |
| LineEditor.MemoryAtLimit | pxbee/misc/utils.c:79-93 | What that line looks like in memory, and its length |
| TimerModulo.Timer.SetPrescaler | pxbee/drivers/tpm/tpm.c:85-106 | Chooses the bus clock when it can and the smallest prescaler for the period, leaves the other register bits alone, and fails exactly beyond the longest period |
| TimerModulo.RegisterInBits | pxbee/drivers/tpm/tpm.c:85-106 | Where clock source and prescaler are in the register |
| TimerModulo.RoundTripExactlyWhenItFits | pxbee/drivers/tpm/tpm.c:112-139 | Converting microseconds to counts and back never exceeds the input and loses less than one step, if and only if the counts fit 16 bits |
| TimerModulo.LongestPeriodDoesNotFit | pxbee/headers/tpm.h:70-73 | The longest period accepted for each prescaler does not fit; one prescaler step less does |
| TimerModulo.KnownPeriods | pxbee/drivers/tpm/tpm.c:112-139 | Some periods in counts and back, on both clocks |

## Left out

- EepromSafety.CrashAtomicity: from a clean state only; CrashFromAnyStart covers every other state, and the modules EepromRuns and EepromLosses say what later writes then store.
- EepromRuns.EepromIsFlatArray: copying writes must end below 0x8000, which RunAgreesExactly shows to be necessary.
- Flash.FlashDevice.ProgramBuffer: commands do not fail, so that -EIO is not returned; the paging of the 128 KB part is not modelled.
- Flash.FlashDevice.ProgramByte: likewise.
- Flash.FlashDevice.ErasePageAt: likewise.
- RomSearch.Search: the cases without end, which SearchNeverEnds describes. The devices do not change during a search, and bit timing is not modelled.
- GraphicDisplay.CircleIsIdeal: centres beside the screen, for which the circle is the wrapped pixel set WriteCircle states.
- Calendar.NextSecondCounts: years up to 65535, where the 16-bit year ends.
- Rtc.Clock.CheckClockAndUpdate: the busy loops that wait for a timeout, and the finer reading of ms_uptime, are not modelled.
- Ds1904.Clock.DateUpdate: the clock register and the error code of reading it are parameters; the transfer over the 1-Wire bus is not modelled.
- Sleep.StopMode: interrupts come one at a time, between two stop instructions or during one.
- EdgeIrq.Bank.ConfigIrq: the direction and pull registers of the pin, and pins without an interrupt.
- EdgeIrq.Bank.GpioIsr: all eight pins of the bank are present; the levels are a parameter.
- EdgeIrq.Isr: that interrupts are masked meanwhile and acknowledged at the end is not modelled.
- SpiEeprom.Write: lengths above 0x7FFF, for which the signed chunk is negative and the copy leaves its buffer. SPI transfers do not fail.
- SpiEeprom.Read: likewise.
- LineEditor.Editor.GetLine: without the echo, and always with the same buffer and limit.
- TimerModulo.Timer.SetPrescaler: the other clock configurations, and the pin and mode functions of `tpm.c`.
- Display 1, tiles, text and contrast; the character display and the keyboard.
- `port_set` and `port_get`: fixed bit permutations of two port registers.
- `eeprom_spi_erase` and the I2C EEPROM `24xxx.c`: the chunk loop of `25xxxx.c` without its page adjustment.
- The rest of the serial port: baud rates, transmission, flow control and the 9-bit mode.
- Start-up code, clocks, watchdog, ADC, PWM and capture wrappers, and the XBee, ZigBee and Xmodem protocols, whose state machines are not in these files.
