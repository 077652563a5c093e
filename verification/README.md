# A verified model of the MRS FPGA toolkit

This project models the parts of the toolkit that change hardware or guard such changes, and proves
what they promise. `dafny verify dfyconfig.toml` checks all of it.

**The SPI-NOR programming stack** is the main part, modelled layer by layer:

| file | layer |
|---|---|
| `NorFlash.dfy` | the flash device: array, status bits, page program that wraps inside its page, erase, configuration register |
| `QuadSpiCore.dfy` | the AXI Quad SPI core (PG153 v3.2, Register Space chapter): FIFOs, toggle-on-write interrupt status, inhibit, slave select |
| `QuadSpiDriver.dfy` | `AxiQuadSpi`: one transfer is one complete flash command |
| `BusyDevice.dfy` | what resets and mutating commands do to a device that may still be busy |
| `SpiNorDriver.dfy` | `SpiNor`: addressing, chunking, write enable, waiting, Micron boot-mode repair |
| `ProgramPlan.dfy`, `SectorPlans.dfy` | what the programming loops ask of the device, as sequences of mutations, and what these mean |
| `FlashHistory.dfy` | the sequences of states a device can go through; the register window records the one it does |
| `Outcome.dfy`, `PlanProperties.dfy`, `EveryInstant.dfy` | how far a run got, and what holds wherever it stops |
| `FlashProgrammer.dfy` | `programAndVerify` |

Device and core are environments. Between two register accesses the core may shift any number of bytes,
finish a FIFO reset, latch an interrupt and let the flash finish or fail, so each driver method is proved
for every interleaving. Its contract speaks about the device alone: `Did(f, plan, g)` says that the device
carried out exactly `plan`, and `Interrupted(f, plan, g)` that it got some way into it, the last command
possibly shortened, with no command dropped. An error has a reason that can be seen (`Reason`): the
controller shows it in a register (`Shows`), or the device in its status or its log (`Causes`). Every method
also extends the recorded history of the device, so that what holds at the end can be said of every state on
the way. From these the end-to-end theorem follows (`ProgramAndVerify`), as do the ones about stopping
(`StoppedAnywhere`, `RunIsSafe`, `SecondRunAfterStop`) and about the work done (`ErasesExactly`,
`SecondRunIsEmpty`, `SectorCost`).

**The other modules** stand alone: `RegisterBank.dfy` (a split 64-bit counter that never stops),
`AxiMm2s.dfy` (assembling a transfer from fragments), `CommandLine.dfy` and `ArgumentLines.dfy` (tokenizer,
quoting, and the lines they are about), `BitImage.dfy` and `BitFiles.dfy` (two readers of `.bit` files, and
the files each takes), `DeviceControl.dfy` and `PcieControl.dfy` (capability walk and read-request size),
`HwIcap.dfy` (the IPROG packet and the configuration port that takes it), `DeadlineInterrupt.dfy` (timer,
signal mask and handler around a blocking call). `Results.dfy` has the errors, `Bytes.dfy` the shared
arithmetic, `Clocks.dfy` the clock.

Conventions: an exception is an `Err`; a clock counts nanoseconds, any number of which pass between two
steps, and a polling loop reports a timeout only when its time is over; bytes and 32-bit registers are
bit-vectors; sizes and addresses are unbounded, and where the source's width matters the bound is written out.
A loop body that needs its own proof is a method of its own (`ProgramNext`, `NextPage`, `ProgramSector`).

Three places where the code is looser than a reader might expect, modelled as the code is: `eraseSector`
checks alignment but not the range, so on its own it erases the address modulo the array size
(`EraseWraps`); it enables writing before it finds an address too wide for the command; and the recovery
that construction runs over an idle-looking bus can reset a part that is only busy (`OpeningMayLose`).

## Model

| member | source | states |
|---|---|---|
| NorFlash.ProfilesMeetGeometry | dev/src/ip_drivers/qspi.cpp:63-70 | both flash profiles have pages that tile sectors, sectors that tile the reachable array, room for data in every command, and distinct opcodes |
| NorFlash.StatusFields | dev/src/ip_drivers/qspi.cpp:63-70 | which status bits are errors and which are protection, part by part |
| NorFlash.PageProgramIsLinear | dev/src/ip_drivers/qspi.cpp:300-301 | a device whose write address wraps inside its page programs straight on as long as the data ends before the page does |
| QuadSpiDriver.AxiQuadSpi.Create | dev/src/ip_drivers/qspi.cpp:86-95 | construction from a deselected core leaves it parked: inhibited, nothing selected; on success the three clock-priming bytes went out unselected, the core was reset, and FIFOs and latched events are clear; a failure is a FIFO reset that has not ended |
| QuadSpiDriver.AxiQuadSpi.PrimeStartupClock | dev/src/ip_drivers/qspi.cpp:169-193 | the core is let run once, on exactly the three clock-priming bytes with nothing selected, and then reset; nothing stays behind in FIFOs or interrupt latches |
| QuadSpiDriver.AxiQuadSpi.Reset | dev/src/ip_drivers/qspi.cpp:160-167 | the core takes one software reset, and after it is parked, empty and without latched events, or its FIFO reset has not ended |
| QuadSpiDriver.AxiQuadSpi.ResetFifos | dev/src/ip_drivers/qspi.cpp:148-158 | both FIFOs are empty and nothing else changed, or the time allowed is over and the reset still pending; the core is inhibited either way |
| QuadSpiDriver.AxiQuadSpi.ClearInterrupts | dev/src/ip_drivers/qspi.cpp:141-146 | toggling what was read clears both polled events of an inhibited core and changes nothing else |
| QuadSpiDriver.AxiQuadSpi.Prepare | dev/src/ip_drivers/qspi.cpp:110-112 | no stale byte and no stale event survives into the command that follows |
| QuadSpiDriver.AxiQuadSpi.Transfer | dev/src/ip_drivers/qspi.cpp:105-139 | the device saw exactly this command in one selection, and each returned byte is what it drove at that position; on every error a prefix of the command at most was seen, and register and clock show why; the core ends parked, and the flash is selected once and the core started once, both with the whole command queued |
| QuadSpiDriver.AxiQuadSpi.Launch | dev/src/ip_drivers/qspi.cpp:113-116 | the flash is selected once and then the core started once, each with the complete command in the transmit FIFO |
| QuadSpiDriver.AxiQuadSpi.AwaitSent | dev/src/ip_drivers/qspi.cpp:117-131 | the wait ends well only when every byte has been shifted; a rejection is a latched command error, and a timeout comes with neither event latched and after the time allowed; both park the core and cut the command |
| QuadSpiDriver.AxiQuadSpi.Collect | dev/src/ip_drivers/qspi.cpp:132-138 | the response is complete and in order, and the command is executed when it ends |
| QuadSpiDriver.ExchangeDrifts | dev/src/ip_drivers/qspi.cpp:113-136 | whatever the core does between two accesses, sent and queued bytes together stay the command, one reply exists for each sent byte, and TX-empty is latched only when all are sent |
| SpiNorDriver.SpiNor.Open | dev/src/ip_drivers/qspi.cpp:195-208 | opening starts no mutation and an idle device keeps its contents; only a device that was busy can lose any, in the area of its last mutation, when the recovery resets it; the recovery runs exactly when the first answer is all 0x00 or all 0xff; the profile is the one the last answer selects, and a device is refused only when it selects none; a supported one that is ready is opened as itself with its own identification and its reachable capacity |
| SpiNorDriver.SpiNor.RecoverSerialMode | dev/src/ip_drivers/qspi.cpp:344-362 | the commands go out in the fixed order, each followed by its identification, and end early only when the device identifies itself; none starts a mutation, the resets included, and an idle device keeps its contents; an operation in progress is ended half way at most once |
| SpiNorDriver.OpeningMayLose | dev/src/ip_drivers/qspi.cpp:198-199 | a concrete Micron part, erasing its first sector, that answers like an idle bus and is left by the recovery's reset with a byte neither old nor erased |
| BusyDevice.ResetNeedsIdle | dev/src/ip_drivers/qspi.cpp:353 | the reset pair leaves log and contents alone if and only if no operation is in progress when the reset comes |
| BusyDevice.BusyDeviceMayLose | dev/src/ip_drivers/qspi.cpp:353 | every busy device may drive a bus that looks idle, and may come out of the reset pair with a byte lost |
| SpiNorDriver.SpiNor.TryRecovery | dev/src/ip_drivers/qspi.cpp:335-342 | the byte is sent once, and starts no mutation; only a refusal that the controller shows is swallowed |
| SpiNorDriver.SpiNor.Identify | dev/src/ip_drivers/qspi.cpp:313-318 | from a ready device the six bytes are its identification, the byte clocked in under the opcode dropped; no device is mutated by asking |
| SpiNorDriver.KnownDeviceMatches | dev/src/ip_drivers/qspi.cpp:320-328 | an identification read from a supported device selects that device's profile and no other |
| SpiNorDriver.MatchesExactly | dev/src/ip_drivers/qspi.cpp:320-328 | the two supported identifications are recognised by these leading bytes, and no other is |
| SpiNorDriver.SpiNor.CheckRange | dev/src/ip_drivers/qspi.cpp:258-262 | accepts exactly the ranges whose end does not pass the capacity |
| SpiNorDriver.SpiNor.EncodeAddress | dev/src/ip_drivers/qspi.cpp:364-373 | the encoding has the command's width, decodes to the address, and exists exactly for addresses that fit |
| SpiNorDriver.SpiNor.ReadStatus | dev/src/ip_drivers/qspi.cpp:214-216 | the value is the device's status before or after it moved on during the command |
| SpiNorDriver.SpiNor.Read | dev/src/ip_drivers/qspi.cpp:264-280 | for every range, the result is that slice of the array, got by read commands that ask for its bytes in order; reading changes nothing, not even when it fails |
| SpiNorDriver.SpiNor.ReadChunk | dev/src/ip_drivers/qspi.cpp:270-278 | exactly the bytes clocked in during the header are dropped |
| SpiNorDriver.SpiNor.WriteEnable | dev/src/ip_drivers/qspi.cpp:375-378 | at most the latch was set and time passed; on a device ready at the call success means that the latch is set, and the flash is never reported as rejecting it |
| SpiNorDriver.SpiNor.WaitReady | dev/src/ip_drivers/qspi.cpp:380-401 | success means neither busy nor write-enabled nor failed; a fault means that the device shows an error bit, a command reported as not started that it is ready with the latch still set, a timeout that it was busy at the call and the time is over; from an idle device without latch and error only the controller can fail |
| SpiNorDriver.MutationRan | dev/src/ip_drivers/qspi.cpp:286-291 | a mutating command sent to a write-enabled ready device and followed by a device ready with the latch clear was carried out, once |
| SpiNorDriver.AttemptFails | dev/src/ip_drivers/qspi.cpp:380-401 | after a complete command to a ready, write-enabled device, one that is still busy has started it, and one that is ready with the latch set is protected |
| SpiNorDriver.MutationCut | dev/src/ip_drivers/qspi.cpp:120-130 | a mutating command that was cut off changed nothing, or programmed a first part of its data |
| SpiNorDriver.SpiNor.EraseSector | dev/src/ip_drivers/qspi.cpp:282-292 | on a device ready at the call, the addressed sector (modulo the array) is erased and nothing else, or the error tells how far it got; on any other, a normal return means that the erase was started, or that it was dropped and the device was busy at the call; after every normal return the device is ready with the latch clear; an address too wide for the command is refused and leaves the latch set; every other error has its reason in the device or the controller |
| SpiNorDriver.EraseWraps | dev/src/ip_drivers/qspi.cpp:282-289 | a concrete address, 64 MiB on the Micron part, that passes both checks of the method and erases sector zero |
| BusyDevice.MutationNeedsIdle | dev/src/ip_drivers/qspi.cpp:286-291 | a command after which the wait succeeds was carried out if and only if the device was idle when the command came; otherwise it was dropped |
| BusyDevice.BusyDeviceDrops | dev/src/ip_drivers/qspi.cpp:286-291 | a device still busy with an earlier operation passes every check of write enable and wait, and drops the command |
| SpiNorDriver.SpiNor.ProgramChunk | dev/src/ip_drivers/qspi.cpp:302-308 | one page-program command carries exactly this part to exactly this address; a normal return on a device that was busy at the call may mean that it was dropped instead; every error has its reason |
| SpiNorDriver.SpiNor.Mutate | dev/src/ip_drivers/qspi.cpp:286-291 | the command and the wait for it, from whatever the device was before write enable: started once or dropped, and dropped only by a device busy at the call; on a ready device it fails to start only when the array is protected |
| SpiNorDriver.SpiNor.Program | dev/src/ip_drivers/qspi.cpp:294-311 | the device carried out exactly the planned chunks in order and is ready; at any error a first part of them, and the error has its reason; out of range exactly when the range does not fit, and then untouched |
| SpiNorDriver.SpiNor.ReadMicronNvcr | dev/src/ip_drivers/qspi.cpp:222-227 | both bytes of the configuration register in the right order, on Micron parts only |
| SpiNorDriver.RepairIsNeeded | dev/src/ip_drivers/qspi.cpp:229-236 | the register is written exactly when one of the boot fields is unsafe; what is written is the only value that is safe in all of them and keeps dummy cycles and driver strength |
| SpiNorDriver.MicronBootSafe | dev/src/ip_drivers/qspi.cpp:229-231 | the mask test decides the seven named register fields |
| SpiNorDriver.SpiNor.RepairMicronBootMode | dev/src/ip_drivers/qspi.cpp:233-256 | on success both values are returned, the register is safe, keeps its other fields, was written at most once and nothing else changed; every mutating command met a ready, write-enabled device, so that none is reported as rejected or not started |
| SpiNorDriver.SpiNor.WriteNvcr | dev/src/ip_drivers/qspi.cpp:237-247 | the register holds the value after success; the readback cannot fail on a conforming device |
| SpiNorDriver.SpiNor.ResetAndReload | dev/src/ip_drivers/qspi.cpp:248-254 | both reset commands and an identification are sent, and the device, which resets only if the command before armed it, is reset: the latch is clear, the same part answers and its contents are as before |
| ProgramPlan.ChunksTile | dev/src/ip_drivers/qspi.cpp:298-310 | the chunks carry each byte once and in order, never cross a page, and each fits the 256-byte FIFO with its header |
| ProgramPlan.ChunksAreLinear | dev/src/ip_drivers/qspi.cpp:294-311 | for any address and data, chunked programming is one linear bitwise AND |
| ProgramPlan.ChunksOnBlank | dev/src/ip_drivers/qspi.cpp:294-311 | over erased cells the result is the data itself |
| SectorPlans.CoveredSectors | fpgactl/src/qspi.cpp:242-243 | the loop's sectors enclose the image, by less than one sector at either end, and lie in the reachable array |
| SectorPlans.SectorReaches | fpgactl/src/qspi.cpp:274-283 | erasing a sector and programming only the pages that are not all 0xff leaves exactly the wanted contents, and nothing outside it changes |
| SectorPlans.PlanReaches | fpgactl/src/qspi.cpp:246-284 | after the sectors up to any one, the array is the target below and the original above, skipped sectors included |
| SectorPlans.ImagePlanSplices | fpgactl/src/qspi.cpp:234-284 | the whole plan, with every skip, is the splice of the image into the array |
| PlanProperties.ImagePlanConfined | fpgactl/src/qspi.cpp:242-284 | every erase and program stays in the covered sectors, and these below the capacity, although erasing checks only alignment |
| PlanProperties.StoppedAnywhere | fpgactl/src/qspi.cpp:239-284 | wherever a run ends, below some sector the array is the target, above it the original, and at most that one sector is in between |
| PlanProperties.RerunRestores | fpgactl/src/qspi.cpp:246-284 | a complete second run after a stop restores all but the cells of the one unfinished sector that the image does not cover; the result is the first target if and only if none of these was lost |
| EveryInstant.InterruptedThroughout | fpgactl/src/qspi.cpp:239-284 | along every history of a device that ends somewhere in the plan, each state on the way is somewhere in the plan, and no command was dropped |
| EveryInstant.SafeAtEveryInstant | fpgactl/src/qspi.cpp:239-284 | the old-above, new-below guarantee for each state of such a history, as after a loss of power |
| EveryInstant.RunIsSafe | fpgactl/src/qspi.cpp:239-284 | the same for the states that the register window recorded during one run; `ProgramAndVerify` promises it of its own run |
| FlashHistory.HistoryLater | dev/src/ip_drivers/qspi.cpp:105-139 | along every history the mutation log and the count of dropped commands only grow, and the contents of an idle device change only with the log |
| FlashHistory.AlwaysCoherent | dev/src/ip_drivers/qspi.cpp:105-139 | a device that begins coherent is so after every history: its array is what its log says, outside the area still in flux |
| FlashHistory.FactoryCoherent | dev/src/ip_drivers/qspi.cpp:195-208 | a device of which nothing has been asked yet is coherent, so that the guarantees for every instant of a run apply to it |
| PlanProperties.ErasesExactly | fpgactl/src/qspi.cpp:268-274 | the erased sectors are exactly those whose target differs from their contents (all of them with `rewrite_all`), each once, in rising order |
| PlanProperties.SecondRunIsEmpty | fpgactl/src/qspi.cpp:268-271 | with the image in place, a run without `rewrite_all` erases and programs nothing |
| PlanProperties.TwoCommandsPerPage | dev/src/ip_drivers/qspi.cpp:297-301 | a whole page takes exactly two commands |
| PlanProperties.SectorCost | fpgactl/src/qspi.cpp:274-283 | a rewritten sector takes one erase and two program commands for each page that is not blank |
| FlashProgrammer.RequireWritable | fpgactl/src/qspi.cpp:224-232 | success means no error and no protection bit in the status, each refusal that its bit is set, protection only without an error, at the call or when the device had moved on; nothing is asked of the device but its status |
| FlashProgrammer.ProgramPage | fpgactl/src/qspi.cpp:278-282 | a page is programmed unless it is blank, and then nothing happens |
| FlashProgrammer.ProgramPages | fpgactl/src/qspi.cpp:275-283 | the pages of a sector are done in order, or a first part of them at an error |
| FlashProgrammer.RewriteSector | fpgactl/src/qspi.cpp:274-283 | one erase and then the pages, or a first part of that at an error |
| FlashProgrammer.DesiredSector | fpgactl/src/qspi.cpp:247-264 | the wanted contents are the sector's slice of the spliced array; the sector is read exactly if any of its contents can matter |
| FlashProgrammer.ProgramSector | fpgactl/src/qspi.cpp:247-283 | one turn of the loop moves the boundary between target and original up by one sector, and rewrites the sector exactly when it must |
| FlashProgrammer.ProgramSectors | fpgactl/src/qspi.cpp:241-284 | the loop carries out the plan, and its counter is the number of erased sectors |
| FlashProgrammer.ProgramWritable | fpgactl/src/qspi.cpp:240-284 | a flash that shows an error or is protected is refused for that reason and left alone, any other goes through the plan; there, an error is the controller's, or the device shows an error bit, or an operation that was started did not end |
| FlashProgrammer.Mismatch | fpgactl/src/qspi.cpp:288-291 | the reported position is the first one at which the two differ |
| FlashProgrammer.Verify | fpgactl/src/qspi.cpp:286-292 | whatever the flash holds and however it came by it, success means that the whole range was read back and reads as the image, and failure names the first byte that does not |
| FlashProgrammer.ProgramAndVerify | fpgactl/src/qspi.cpp:234-299 | on every normal return the array is the old one with the image spliced in, by exactly the plan, and the count is that of the erased sectors; at every other end the device is somewhere in that plan; every state it went through on the way is the target below one sector and the original above it; out of range, a shown error and protection are refused with nothing touched, the first exactly when the image does not fit; every later error has its reason: the controller shows it, or the device shows an error bit, or an operation that was started did not end in five seconds or more, and neither write enable nor an operation is ever reported as refused; success comes only after the whole image was read back, and this verification never fails on a conforming device |
| FlashProgrammer.SecondRunAfterStop | fpgactl/src/qspi.cpp:234-299 | a first run that stopped anywhere, anything short of a mutation in between (a reset while reopening included), and a complete second run: all cells are as the first run wanted them, except those of its unfinished sector beside the image, which stay as found; nothing is missing if and only if none of these was lost |
| RegisterBank.IpDriverLite.Create | dev/src/ip_driver_lite.cpp:14-27 | exactly aligned bases and positive aligned spans are accepted |
| RegisterBank.IpDriverLite.ValidateOffset | dev/src/ip_driver_lite.cpp:128-138 | accepts exactly the aligned registers inside the span whose absolute address fits 32 bits |
| RegisterBank.IpDriverLite.Read32 | dev/src/ip_driver_lite.cpp:29-32 | one register access for an addressable offset, none otherwise |
| RegisterBank.IpDriverLite.Read64Stable | dev/src/ip_driver_lite.cpp:54-66 | the counter's exact value at the instant the accepted low word was read, however it advances between reads, and the retries come to an end; a refusal names the first bad offset and reads nothing |
| RegisterBank.IpDriverLite.Read64 | dev/src/ip_driver_lite.cpp:43-52 | the low word of one instant under the high word of a later one |
| RegisterBank.TornRead | dev/src/ip_driver_lite.cpp:43-52 | the plain read is right exactly when the high word did not move between its halves; otherwise it is above the counter at the first read, and above the counter at both exactly when the low word ran back |
| RegisterBank.TornReadExample | dev/src/ip_driver_lite.cpp:48-51 | an instance in which the plain read is ahead by almost 2^32 |
| AxiMm2s.ReadExact | dev/src/xdma.cpp:452-474 | for every fragmentation exactly `size` bytes are taken from the stream and stored in order; nothing behind them is written, and no ending takes more; a failure is one that a call reported, or the time is over |
| AxiMm2s.RoundedUpIsLeast | dev/src/ip_drivers/aximm2s.cpp:53-55 | the padded length is the least beat multiple not below the requested one |
| AxiMm2s.AlignmentFits | dev/src/ip_drivers/aximm2s.cpp:50-69 | past the overflow checks no intermediate value leaves 64 bits |
| AxiMm2s.CountedConsistent | dev/src/ip_drivers/aximm2s.cpp:97-107 | one more fragment keeps smallest * calls <= bytes <= largest * calls, largest <= chunk, short <= calls |
| AxiMm2s.CountedMeasures | dev/src/ip_drivers/aximm2s.cpp:97-107 | one more fragment keeps the statistics equal to number, short ones, least and greatest of the fragments there were |
| AxiMm2s.TalliedMore | dev/src/ip_drivers/aximm2s.cpp:81-107 | one more call, empty or not, keeps the statistics those of all calls, each of which asked for a chunk or for what was left |
| AxiMm2s.CallsWithoutShortReads | dev/src/ip_drivers/aximm2s.cpp:90-107 | without a short read the calls are the chunks of the transfer, rounded up |
| AxiMm2s.AxiMm2s.Collect | dev/src/ip_drivers/aximm2s.cpp:79-108 | the buffer receives the stream in order, never beyond its end; each call asked for a chunk or for what was left, and the statistics are the number, the short ones, the least and the greatest of the non-empty returns |
| AxiMm2s.AxiMm2s.Create | dev/src/ip_drivers/aximm2s.cpp:16-32 | exactly positive multiples of four bytes are accepted as beats |
| AxiMm2s.AxiMm2s.Start | dev/src/ip_drivers/aximm2s.cpp:71-73 | the start bit finds exactly this address and length in the register halves, and starts one transfer |
| AxiMm2s.AxiMm2s.Finish | dev/src/ip_drivers/aximm2s.cpp:109-118 | success means that the core was seen idle and then complete without an error; a timeout that it was busy when last seen; a failure that it was idle and then in error or incomplete |
| AxiMm2s.AxiMm2s.Read | dev/src/ip_drivers/aximm2s.cpp:34-128 | one transfer of the padded length is started exactly when timeout and sizes are good, and otherwise nothing is touched; exactly that many bytes are consumed, never more however the call ends, and the requested ones returned; success saw the core complete without an error; the statistics are those of the calls; a system failure is in the stream's record and a failed transfer in the status |
| CommandLine.SplitCommandArguments | fpgactl/src/common.cpp:87-129 | the character loop reads exactly the recursive grammar of quoted arguments, errors included |
| ArgumentLines.AcceptsExactlyLines | fpgactl/src/common.cpp:87-129 | a text is accepted, with these arguments, exactly when it is a line that means them: words between runs of the six blanks, each a sequence of bare, backslashed, apostrophe-quoted and quotation-marked pieces |
| ArgumentLines.PlainWordsSplit | fpgactl/src/common.cpp:111-120 | non-empty words without quote, backslash or one of the six blanks, with any blanks between and around them, come out exactly as they are |
| ArgumentLines.LineSplits | fpgactl/src/common.cpp:93-121 | whatever the pieces are, a line of words is split into the words it means |
| CommandLine.PendingStep | fpgactl/src/common.cpp:93-121 | one character of the tokenizer's state machine is one step of the grammar, in every state |
| CommandLine.DisplayCommand | fpgactl/src/common.cpp:304-315 | the printed line reads back as the printed arguments |
| ArgumentLines.DisplayIsLine | fpgactl/src/common.cpp:304-315 | the printed line is each argument between quotation marks with one space between two, a backslash standing before quotation marks and backslashes and nowhere else |
| CommandLine.SplitUndoesDisplay | fpgactl/src/common.cpp:304-315 | tokenizing undoes quoting for every list of strings |
| CommandLine.RejectsUnfinished | fpgactl/src/common.cpp:122-124 | a text is rejected exactly when it ends inside a quote or an escape, and completing these makes it accepted |
| CommandLine.SplitsApart | fpgactl/src/common.cpp:111-116 | a space between two accepted texts separates their arguments and changes neither |
| BitImage.ValidateBitImage | fpgactl/src/jtag.cpp:197-225 | the imperative recogniser decides the grammar of `.bit` files, with the same reason for each rejection |
| BitImage.AcceptsExactlyTheFormat | fpgactl/src/jtag.cpp:197-225 | the accepted files are precisely the serialisations of encodable contents |
| BitImage.ParsedSerialized | fpgactl/src/jtag.cpp:197-225 | reading what was written gives it back |
| BitImage.SerializedParsed | fpgactl/src/jtag.cpp:197-225 | an accepted file is the only serialisation of what it says |
| BitImage.LoadBit | fpgactl/src/qspi.cpp:76-111 | the tolerant loader's loop over fields, known and unknown, equals its recursive meaning; it never reads outside the file |
| BitImage.Trim | fpgactl/src/qspi.cpp:105-107 | trailing NULs go, and nothing else |
| BitImage.SerializedLoads | fpgactl/src/qspi.cpp:76-111 | a serialised file is loaded to its payload and its four descriptions up to trailing NULs |
| BitImage.AcceptedLoads | fpgactl/src/qspi.cpp:76-111 | every file the strict reader accepts is loaded without error to the same payload, the tail of the file, and the same descriptions |
| BitFiles.LoadsExactly | fpgactl/src/qspi.cpp:76-111 | a file is loaded to an image exactly when it has 16 bytes or more and consists of header, marker, tagged fields in any number and order, payload and anything behind it, the image holding that payload and, for each of the four letters that occurs, the last value under it up to trailing NULs |
| BitFiles.SerializedIsFile | fpgactl/src/jtag.cpp:210-224 | byte for byte, the strict format is the case of the letters a to d in order, a payload under e, and nothing behind it |
| PcieControl.DecodePcieControl | fpgactl/src/pcie.cpp:115-147 | on every byte vector the walk ends within 63 capabilities, in bounds, at the first PCI Express one; the register is the two bytes eight further on, read low byte first, and the sizes are 128 times two to the power of its bits 7 to 5 and 14 to 12; "malformed" means that a pointer recurs; the list is missing exactly when the space is short or the status bit clear |
| DeviceControl.SizesMean | fpgactl/src/pcie.cpp:136-142 | payload and read request size of two register bytes are 128 times two to the power of bits 7 to 5 and 14 to 12 of their little-endian number |
| PcieControl.FollowChain | fpgactl/src/pcie.cpp:119-147 | the loop follows the chain of pointers defined by the bytes alone, and stops where that chain stops |
| PcieControl.StopsOnce | fpgactl/src/pcie.cpp:121-146 | the end of a walk is unique |
| DeviceControl.MrrsChanges | fpgactl/src/pcie.cpp:469-471 | the new register value has the requested read size, the old payload size and all other bits, and equals the old one only if the size was the requested one |
| PcieControl.SetMrrs | fpgactl/src/pcie.cpp:462-478 | exactly the six sizes are accepted; of the whole space only the upper byte of the Device Control register of the capability that decoding finds changes, and in it only the field that then says the requested size |
| PcieControl.PathSurvives | fpgactl/src/pcie.cpp:469-478 | the chain over the new bytes takes the same path if and only if no earlier capability overlaps the register, or the size does not change |
| PcieControl.MrrsDecodes | fpgactl/src/pcie.cpp:115-147 | under that condition decoding the new bytes, by the same number of steps, gives the same capability, the requested size, the old payload size and all other bits |
| PcieControl.DecodesExactly | fpgactl/src/pcie.cpp:115-147 | decoding the new bytes gives that result if and only if nothing earlier overlaps the register, or the size does not change, or the walk over the old bytes from the diverted link, with the steps before counted as visited, comes to the capability first |
| PcieControl.OverlapMayRejoin | fpgactl/src/pcie.cpp:469-478 | a concrete overlapping chain in which decoding still succeeds, by a detour |
| PcieControl.OverlapLosesCapability | fpgactl/src/pcie.cpp:469-478 | a concrete overlapping chain in which the update makes the capability unreachable |
| HwIcap.AxiHwIcap.Create | dev/src/ip_drivers/hwicap.cpp:26-37 | exactly positive timeouts and vacancies of at least one packet are accepted |
| HwIcap.AxiHwIcap.WaitIdle | dev/src/ip_drivers/hwicap.cpp:76-83 | success means that no transfer is in progress, a timeout that one is when the time is over |
| HwIcap.AxiHwIcap.Reset | dev/src/ip_drivers/hwicap.cpp:85-95 | the reset bit is pulsed once and no unrelated control bit changes; success means neither reset nor transfer in progress, DONE and end-of-startup reported, and exactly the expected vacancy; each error names what was found instead; nothing was sent |
| HwIcap.AxiHwIcap.TriggerIprog | dev/src/ip_drivers/hwicap.cpp:49-68 | all or nothing: the transfer starts only after a ready status and with the whole packet queued in order; the configuration port then receives the start address and IPROG and no other register write, exactly when no stale words leave it in the middle of a write, and always when the expected vacancy is that of the empty FIFO; every error comes before a single word is queued and has its reason |
| HwIcap.PacketBoots | dev/src/ip_drivers/hwicap.cpp:55-61 | interpreted as configuration packets, the eight words write WBSTAR and then IPROG, and nothing else, exactly when the words before them end between two packets |
| HwIcap.PacketNamesAddress | dev/src/ip_drivers/hwicap.cpp:58-60 | WBSTAR fits 16 bits, times 256 it is the requested address, and different addresses give different packets |
| HwIcap.PacketAlone | dev/src/ip_drivers/hwicap.cpp:92-94 | nothing precedes the packet exactly when the expected vacancy is the one an empty FIFO reports |
| HwIcap.DefaultVacancy | dev/include/mrs_fpga_dev/ip_drivers/hwicap.h:25-33 | the default of 63 is that of a 64-word FIFO, and there the packet is alone; 62, which the constructor accepts, lets one word through in front |
| DeadlineInterrupt.DriverDeadlineInterrupt.Create | dev/src/xdma.cpp:53-120 | on success the caller's mask is back, the handler is in place and the timer runs with the given timeout, at least a nanosecond, and a repetition every millisecond; a raised flag is this guard's own; on failure there is no timer, the flag is down, mask and pending signal are as found, and either the caller had blocked the signal or a call failed; the process is never killed by its own signal |
| DeadlineInterrupt.DriverDeadlineInterrupt.Arm | dev/src/xdma.cpp:75-105 | nothing is delivered behind the mask, the timer is never armed before the handler is installed, and this fails exactly when a call does |
| DeadlineInterrupt.DriverDeadlineInterrupt.Undo | dev/src/xdma.cpp:106-118 | the clean-up of a failed construction leaves no timer, no pending signal and the caller's mask |
| DeadlineInterrupt.DriverDeadlineInterrupt.Drain | dev/src/xdma.cpp:147-162 | success with the timer stopped means that nothing is pending |
| DeadlineInterrupt.DriverDeadlineInterrupt.Disarm | dev/src/xdma.cpp:164-172 | no timer remains |
| DeadlineInterrupt.DriverDeadlineInterrupt.Destroy | dev/src/xdma.cpp:122-137 | no late expiration outlives the guard: no timer, no pending signal, flag down, mask as before |
| DeadlineInterrupt.DriverDeadlineInterrupt.Attempt | dev/src/xdma.cpp:369-393 | a flag that is up stops the write before anything is submitted; otherwise exactly one call for the whole packet is made, and its outcome and the flag together decide among success, timeout and failure |
| DeadlineInterrupt.DriverDeadlineInterrupt.WriteH2C | dev/src/xdma.cpp:357-394 | success means that one call was made and moved the whole packet, a failed transfer that one was made and did not, a timeout that this call's own timer expired, before the call or without its being refused; there is never a second call; a system failure is a failed call of the guard; the thread is left as it was found |

## Left out

- SpiNorDriver.SpiNor.Open: whether the recovery opcodes wake a sleeping part or leave its quad mode is not modelled; what an aborted operation leaves is any contents of its area.
- SpiNorDriver.SpiNor.ResetAndReload: stated for a device that is ready at the call, as its caller has just made sure.
- SpiNorDriver.SpiNor.Program: presupposes an idle device, as does `ProgramAndVerify`, which nothing in the source checks; what a busy one does is stated for `EraseSector` and `ProgramChunk`, which may drop the first command.
- FlashProgrammer.ProgramAndVerify: a failed operation shows in an error bit of the status register. The Micron profile has no such bit, so a Micron part that fails silently is not a conforming device here; then only the final comparison stands (`Verify` presupposes nothing about what went before), and it covers the image but not the preserved ends of the edge sectors.
- DeadlineInterrupt.DriverDeadlineInterrupt.Create: only this guard's timer raises the signal, and guards on one thread do not nest, and a thread sees finitely many expirations and interruptions; where a clean-up call whose result the code ignores fails itself, only the survival of the process is stated.
- HwIcap.AxiHwIcap.TriggerIprog: with a configured vacancy below that of the empty FIFO the words in front of the packet are counted, not excluded, because the code lets them through, and the restart is stated for those that end between two packets; `validate` and the final sleep are left out.
- DeadlineInterrupt.DriverDeadlineInterrupt.WriteH2C: a closed descriptor and a null pointer are not modelled.
- AxiMm2s.AxiMm2s.Read: `blocked_time` is real time and left out; a failed call leaves the caller's statistics alone, where the model returns empty ones.
- PcieControl.SetMrrs: reading and writing the configuration file, and the readback after the write, belong to the operating system.
- Register-transport failures (`pread` and `pwrite` that fail) under the QSPI, HWICAP and register-bank drivers: the code promises nothing there.
- Destructor of `AxiQuadSpi`: the two parking writes of every transfer again.
- The base address and offset checks inside the QSPI and HWICAP stacks: offsets are constants there; `RegisterBank` treats the checks themselves.
- `update32`, `waitMasked` as a member, `readWords`, `Axis2Mm`, GPIO, XADC, Device DNA: short members that would add nothing harder.
- `loadImage` beyond the `.bit` branch: file extensions, raw `.bin` files, the search for the synchronisation word, the refusal of blank images and the part-name filter.
- Real time: sleeps are left out, since any time may pass between two steps anyway; that a loop notices its deadline soon is not stated.
- SHA-256, progress output, JSON and option parsing, child processes, the sysfs and module life cycle: user interface and operating system.
