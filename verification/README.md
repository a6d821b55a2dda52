# Firmware lab: a verified model of its core

The lab lets a student flash and debug an STM32F4 board from an editor, guided by a tutor. This project
models three of its components in Dafny and proves what they promise.

**The probe driver** programs sector flash through read-modify-writes of FLASH_CR, splits memory accesses
into transfers, plants breakpoints, polls for halts and serialises all of this through a mutex.

- `FlashController` is the hardware: keys, FLASH_SR, FLASH_CR and an array of bytes where erasing writes
  0xff and programming can only clear bits. Every access may fail before or after it took effect, and every
  erase or program operation may fail and leave its bytes arbitrary; programming may do so without an error
  flag unless the controller is an honest one. It records the requests it receives.
- `FlashWords` shows on 32-bit words that the driver's masks and shifts are the field updates used there.
- `Stm32Flash` is the flash driver. `Transfers` says how a memory access is split and what the status of the last
  transfer is worth, `ChunkedMemory` is the code that does it. `Breakpoints` is the
  bookkeeping of the breakpoint unit on values; `BreakpointUnit` is the class, with failing accesses.
- `Serial` is the promise-chain mutex and the batch loop. `PollerProtocol` is the poller and its generation
  guard as a transition system over timers, ticks and operations; `ProbeService` is the class whose methods
  are those steps and keep its invariants. `Base64` is the form in which bytes travel, `Base64Alphabet` holds
  it against the standard.

**The GDB remote server** turns packets into probe operations.

- `RspPacket` is the packet codec, `PageCache` the pages of a read and `PagedReader` the read on top of the
  driver's memory access, `Blocks` and `VFlash` the vFlash transaction, `Elf` the flash image of an ELF file.
- `GdbProtocol` puts session, probe, target, client and the messages between them into one transition system:
  handlers run one at a time and wait for their operations, the target changes its memory while it runs,
  `halted` events arrive in between in the order in which they were emitted, and stop replies take time to
  reach the client. A client may send any packet at any time.
- `GdbCoherence` says when the page cache agrees with memory, for every client, and `GdbStaleness` how it goes
  stale. `GdbAllStop` adds the rule of an all-stop client, stated by what it has sent and received, and
  `GdbOvertaking` says exactly when that rule is not enough, and `GdbClient` what a client can tell of that by
  itself.
- `GdbSession` is the class; each of its methods is one part of a handler between two waits and one step of the
  protocol, and it keeps the invariants of the protocol in a ghost world.

**The tutor's course engine**: `Courses` validates manifests, builds the step table and enumerates the
steps; `Progress` is completion, locks and marks over arbitrary histories.

A few terms. A *run* is any sequence of steps of one of the transition systems from its initial state. A
function applied to an old state (`Next`, `Recorded`, `FeedAll`, …) is the specification that a class method
is tied to; the lemmas about that function are what the method then guarantees.

Where the code does not keep a promise, the exact condition is proved: `FlashWords.EraseWordExact`,
`Stm32Flash.LockedAgainExactly`, `Transfers.CheckedReadExactly`, `Transfers.CheckedWriteExactly`,
`GdbOvertaking.OvertakesExactly`, `GdbClient.RiskExactly`, `GdbStaleness.SpoilsExactly`,
`GdbStaleness.SetExactly`, `GdbStaleness.ClearExactly`, `VFlash.ImageIntactExactly`,
`PollerProtocol.StepKeepsWatchedExactly`, `Breakpoints.ComparatorRoundTrip`, `Transfers.WholeWordsExactly`,
`Progress.FailuresCounted`, `Progress.TierIsHighestExactly` and `Progress.MissedWrapExactly`.
`Stm32Flash.LeftUnlocked`, `Transfers.AcrossFlashStart`, `GdbOvertaking.StaleReadFromStart`,
`GdbStaleness.ReadThenZ1`, `GdbStaleness.KillGoesStale`, `VFlash.LargeSectorLosesChunk`,
`PollerProtocol.LosingStepLoses` and `Progress.ConstructorIsNotCounted` are inputs and runs that fail. In two
places the code differs from its own comments: `write` is described as leaving the flash locked
(`extensions/cads-probe/src/driver/stm32fs.ts:144`), but after a failed unlock it does not lock again; and
`nextOpenStep` is described as wrapping around to the first open step
(`extensions/cads-tutor/src/session.ts:162`), but it stops at the last one. The model follows the code.

## Model

| member | source | states |
|---|---|---|
| `FlashController.Controller.WriteCr` | extensions/cads-probe/test/mock-stlink.ts:203-226 | A locked controller only stays locked; otherwise an erase of one sector, a lock, a mass erase or a plain store, or nothing at all if the write was lost |
| `FlashController.Controller.WriteKey` | extensions/cads-probe/test/mock-stlink.ts:191-199 | Only the second key, right after the first, unlocks; a key never touches anything but the lock |
| `FlashController.Controller.SetMem32` | extensions/cads-probe/test/mock-stlink.ts:95-110 | Programming clears bits inside its range only, and only while PG is set and the controller unlocked; otherwise the access status is bad and nothing changes |
| `FlashWords.SelectWord` | extensions/cads-probe/src/driver/stm32fs.ts:105-108 | The first word of an erase changes the four sector bits and SER and no other field |
| `FlashWords.StartWord` | extensions/cads-probe/src/driver/stm32fs.ts:109-111 | The second word changes STRT only |
| `FlashWords.SizeWord` | extensions/cads-probe/src/driver/stm32fs.ts:133-135 | The mask and shift for PSIZE change that field only |
| `FlashWords.BeginProgrammingWord` | extensions/cads-probe/src/driver/stm32fs.ts:136-138 | Setting PG changes that field only |
| `FlashWords.EndProgrammingWord` | extensions/cads-probe/src/driver/stm32fs.ts:192-193 | Clearing PG changes that field only |
| `FlashWords.LockWord` | extensions/cads-probe/src/driver/stm32fs.ts:82-84 | The word written to lock is the power-on value, and clearing bit 31 unlocks and changes nothing else |
| `FlashWords.ErrorsClearedByOnes` | extensions/cads-probe/src/driver/stm32fs.ts:79 | Writing 0xf3 leaves none of the error flags that waitBusy checks, whatever was latched |
| `FlashWords.EraseWordExact` | extensions/cads-probe/src/driver/stm32fs.ts:105-111 | The erase names the sector that was meant exactly if bit 7 and MER were clear before; with MER set it is a mass erase |
| `Stm32Flash.SectorsFor` | extensions/cads-probe/src/driver/stm32fs.ts:119-128 | The list holds exactly the sectors that overlap the range, ascending, with their true start and size |
| `Stm32Flash.OverlapsExactly` | extensions/cads-probe/src/driver/stm32fs.ts:124 | A non-empty image overlaps exactly the sectors in which one of its bytes lies |
| `Stm32Flash.PaddingStaysInSectors` | extensions/cads-probe/src/driver/stm32fs.ts:149-155 | Padding to whole words touches no further sector and never leaves the bank |
| `Stm32Flash.PaddingIsErased` | extensions/cads-probe/src/driver/stm32fs.ts:149-155 | Flashing the padded image is flashing the image: the padding is indistinguishable from erased bytes |
| `Stm32Flash.SkippingBlanks` | extensions/cads-probe/src/driver/stm32fs.ts:181-182 | Not programming an all-0xff block gives the same flash as programming it |
| `Stm32Flash.ProgramOneMore` | extensions/cads-probe/src/driver/stm32fs.ts:179-190 | ANDing a block onto erased bytes extends the flashed prefix by that block |
| `Stm32Flash.SectorsEndWithBank` | extensions/cads-probe/src/driver/stm32fs.ts:119-128 | No byte beyond the bank lies in a touched sector |
| `Stm32Flash.RunIsSafe` | extensions/cads-probe/src/driver/stm32fs.ts:61-210 | Every run, aborted or not, has a safe sequence of requests, whatever its results say: the core is halted first, and nothing follows if that fails; only the two keys, next and in order; nothing erased, programmed or locked before the error flags were cleared, the last step of unlocking; no mass erase; sectors erased in ascending order, overlapping ones only, none after programming began; and after the flags were cleared a lock request last |
| `Stm32Flash.LockedAgainExactly` | extensions/cads-probe/src/driver/stm32fs.ts:144-210 | In a safe sequence a lock request follows exactly if the error flags were cleared, that is, if unlocking returned normally |
| `Stm32Flash.LeftUnlocked` | extensions/cads-probe/src/driver/stm32fs.ts:61-80 | From every locked controller there is a failing run of unlocking that leaves it unlocked, with both keys sent and no lock request to come |
| `Stm32Flash.F4Geometry` | extensions/cads-probe/src/driver/targets.ts:30 | The twelve sectors fill the firmware window of one megabyte exactly; the 64 KB sector begins at 0x10000, the 128 KB sectors at 0x20000 |
| `Stm32Flash.Stm32FlashFS.Unlock` | extensions/cads-probe/src/driver/stm32fs.ts:61-80 | A normal return means the controller is unlocked, no error flag is set and the clear was the last request; the flash is untouched either way |
| `Stm32Flash.Stm32FlashFS.Lock` | extensions/cads-probe/src/driver/stm32fs.ts:82-84 | The lock request is issued in every case, and a normal return leaves the power-on value |
| `Stm32Flash.Stm32FlashFS.WaitBusy` | extensions/cads-probe/src/driver/stm32fs.ts:86-99 | Ends, and returns normally only if no error flag was set once the controller was not busy any more |
| `Stm32Flash.Stm32FlashFS.EraseSector` | extensions/cads-probe/src/driver/stm32fs.ts:101-116 | At most one request, for this sector; bytes outside the sector never change; a normal return means the sector is 0xff |
| `Stm32Flash.Stm32FlashFS.InitWrite` | extensions/cads-probe/src/driver/stm32fs.ts:130-139 | A normal return means that PSIZE says 32 bits, PG is set and no other field has changed; no request is issued and the flash is untouched |
| `Stm32Flash.Stm32FlashFS.EraseAll` | extensions/cads-probe/src/driver/stm32fs.ts:169-174 | The requests are a prefix of the list in order, the whole list on a normal return, and then the touched sectors are 0xff and the rest is as before |
| `Stm32Flash.Stm32FlashFS.ProgramAll` | extensions/cads-probe/src/driver/stm32fs.ts:176-190 | From erased sectors, whatever happens, only program requests are issued and the bytes outside the image are as after flashing it; on a controller that reports every failure a normal return means the flash holds the image |
| `Stm32Flash.Stm32FlashFS.FinishWrite` | extensions/cads-probe/src/driver/stm32fs.ts:191-207 | A normal return means that PG is clear and, if the image was read back or the controller reports every failure, that the flash holds the image |
| `Stm32Flash.ReadBackIsFlashed` | extensions/cads-probe/src/driver/stm32fs.ts:195-207 | What reading back is for: whatever became of programming, finding the image means that it is flashed |
| `Stm32Flash.Stm32FlashFS.Verify` | extensions/cads-probe/src/driver/stm32fs.ts:195-207 | Returns normally only if the flash holds the data, and always then if no access fails |
| `Stm32Flash.Stm32FlashFS.Write` | extensions/cads-probe/src/driver/stm32fs.ts:146-211 | At 2.7 V or less, or an unknown voltage, the error is TARGET_FAULT, and UNSUPPORTED for an unaligned address or no sector, and nothing has happened; a normal return leaves the image (for certain if it is read back), 0xff in the rest of the touched sectors, every other byte unchanged and the controller locked; any exit changes touched sectors only, and the requests it issued are safe, so once unlocking returned normally the last one is to lock; with reliable hardware and more than 2.7 V it does return normally |
| `Stm32Flash.Stm32FlashFS.Flash` | extensions/cads-probe/src/driver/probe.ts:541-558 | Refused, and nothing happens: exactly unaligned, empty and outside images with UNSUPPORTED, and any other at 2.7 V or less or at an unknown voltage with TARGET_FAULT; bytes beyond the window never change; reliable hardware and more than 2.7 V give a normal return |
| `Blocks.SortCorrect` | extensions/cads-board-bridge/src/rsp/server.ts:436 | Sorting orders by address and is a permutation |
| `Blocks.SortStable` | extensions/cads-board-bridge/src/elf.ts:36 | Blocks at equal addresses keep their order |
| `VFlash.SortedDisjointAscends` | extensions/cads-board-bridge/src/rsp/server.ts:435-436 | Sorting disjoint non-empty chunks makes each end before the next begins |
| `VFlash.MergeCorrect` | extensions/cads-board-bridge/src/rsp/server.ts:440-452 | Images lie inside the window, ascending and at least 0x4000 apart; they hold exactly the bytes of the chunks plus 0xff in gaps below 0x4000 |
| `VFlash.ThresholdIsExact` | extensions/cads-board-bridge/src/rsp/server.ts:444 | Two chunks become one image exactly if the second begins less than 0x4000 behind the end of the first |
| `VFlash.MergedBounds` | extensions/cads-board-bridge/src/rsp/server.ts:440-452 | Even of overlapping chunks, every image begins where a chunk does and ends where a chunk does |
| `VFlash.ByteAfter` | extensions/cads-board-bridge/src/rsp/server.ts:453-460 | What is left of any image byte after any later image: 0xff if its sector was touched since, itself otherwise |
| `VFlash.ImageIntactExactly` | extensions/cads-board-bridge/src/rsp/server.ts:453-460 | An image survives the transaction exactly if no later image touches the sector of one of its bytes other than 0xff |
| `VFlash.ChunksInFlash` | extensions/cads-board-bridge/src/rsp/server.ts:435-462 | If no two images share an erase sector, every chunk is in flash at the end |
| `VFlash.ThresholdSeparatesSmallSectors` | extensions/cads-board-bridge/src/rsp/server.ts:444 | The threshold alone guarantees that for an image ending within the 16 KB sectors |
| `VFlash.LargeSectorLosesChunk` | extensions/cads-board-bridge/src/rsp/server.ts:444 | Beyond them it does not: two chunks in one 128 KB sector, the first of which is lost |
| `VFlash.Transaction.VFlashWrite` | extensions/cads-board-bridge/src/rsp/server.ts:423-430 | A chunk is accepted exactly if it lies inside the window, and the chunks kept are those that the history of demands gives |
| `VFlash.ErasesDoNotMatter` | extensions/cads-board-bridge/src/rsp/server.ts:412-430 | Whatever was announced for erasing, before, between or after, the chunks to be flashed are the accepted writes, in order and inside the window |
| `VFlash.UntouchedStays` | extensions/cads-board-bridge/src/rsp/server.ts:412-462 | An announced range is erased only as far as an image touches its sectors; every other byte keeps its value through the transaction |
| `VFlash.Transaction.Merge` | extensions/cads-board-bridge/src/rsp/server.ts:440-452 | The loop computes the merge that MergeCorrect is about |
| `VFlash.Transaction.FlashImages` | extensions/cads-board-bridge/src/rsp/server.ts:453-460 | OK means every image was flashed in order; E01 means that those before some image k were, in order, and that nothing else changed but sectors of image k; if nothing else goes wrong the reply is OK exactly if every image is word-aligned, non-empty and inside the window; too low a voltage gives E01 and changes nothing |
| `VFlash.Transaction.FlashDone` | extensions/cads-board-bridge/src/rsp/server.ts:435-462 | No accepted chunk: OK, and the controller is as before. OK means all images were flashed in address order and, for disjoint chunks whose images share no sector, that every chunk is in flash; E01 means that the images before some image k were flashed and only sectors of image k have changed besides. On reliable hardware above 2.7 V the reply is OK exactly if all images are word-aligned and non-empty; at 2.7 V or less it is E01 and nothing changes. The lists are empty afterwards and the second bank is untouched on every exit |
| `PageCache.SpanInOneRegion` | extensions/cads-board-bridge/src/rsp/server.ts:111-113 | If both ends are cacheable and the length is at most 2048, the whole page span is cacheable and at most five pages long |
| `PageCache.KeptPages` | extensions/cads-board-bridge/src/rsp/server.ts:111-113 | Cached pages lie in flash, RAM or CCM, so registers of peripherals are never kept |
| `PageCache.PagedExactly` | extensions/cads-board-bridge/src/rsp/server.ts:498-500 | Exactly the reads of up to 2048 bytes inside one of these regions go through pages |
| `PageCache.PageJoins` | extensions/cads-board-bridge/src/rsp/server.ts:525-533 | The slice copied from each page continues the request without gap or overlap |
| `PagedReader.PageIsSure` | extensions/cads-board-bridge/src/rsp/server.ts:503-522 | An answer to a page read is memory: a page is one transfer |
| `PagedReader.Reader.Fill` | extensions/cads-board-bridge/src/rsp/server.ts:514-524 | Filling keeps the cache equal to memory, adds requested pages only, and all of them on success |
| `PagedReader.Reader.Assemble` | extensions/cads-board-bridge/src/rsp/server.ts:525-534 | Joining page slices gives exactly the requested bytes of memory |
| `PagedReader.Reader.FetchMem` | extensions/cads-board-bridge/src/rsp/server.ts:497-535 | Through pages the result is exactly memory; an exact request, for other ranges or when a page cannot be read, is a checked read of the driver and exactly memory if it takes one transfer; a paged read fails only if a page and then the exact request were refused; if no transfer fails every reachable read is memory; the cache stays coherent and within the cacheable regions |
| `GdbProtocol.AlongKeepsShape` | extensions/cads-board-bridge/src/rsp/server.ts:187-239 | In every run of every client at most one answer is on its way, only to a waiting handler, and a halt on its way means that the target stands still unless it is being started again |
| `GdbProtocol.SigIntAnswersCtrlC` | extensions/cads-board-bridge/src/rsp/server.ts:215-239 | In every run of every client a stop reply says SIGINT only if a Ctrl-C has found the session running since the stop reply before it |
| `GdbProtocol.SignalsAreRight` | extensions/cads-board-bridge/src/rsp/server.ts:215-225 | In every run of every client, every stop reply for a breakpoint or watchpoint says SIGTRAP, for a fault SIGSEGV, and for any other reason SIGINT exactly if a Ctrl-C has found the session running since the stop reply before it |
| `GdbProtocol.ReasonsAreRight` | extensions/cads-board-bridge/src/rsp/server.ts:203-239 | Its reason is that of the halted event or of the answer to the step, and "halted" behind a Ctrl-C; a halted event is not answered while the session is stopped |
| `GdbCoherence.StepKeepsClean` | extensions/cads-board-bridge/src/rsp/server.ts:497-588 | Every step that does not spoil, of any client, keeps what ties cache, target and answers on their way together |
| `GdbCoherence.CacheIsCoherent` | extensions/cads-board-bridge/src/rsp/server.ts:199-213 | No premise on the client: if nothing was spoiled since the target last stood still with nothing cached, every cached page equals target memory whenever the session is stopped and no handler is at work |
| `GdbCoherence.StoppedReadIsDirect` | extensions/cads-board-bridge/src/rsp/server.ts:497-541 | In the same runs a read answered while the session is stopped reports memory as it is at that moment |
| `GdbStaleness.SpoilsExactly` | extensions/cads-board-bridge/src/rsp/server.ts:408-411 | In a clean state a step spoils if and only if steps that spoil nothing can follow it to a stopped session with a stale cache: vKill while stopped or about to stop, or a rewrite of bytes of a cached page; after vKill with nothing cached, if no packet is queued |
| `GdbStaleness.NextPacketMends` | extensions/cads-board-bridge/src/rsp/server.ts:408-411 | What a queued packet changes: one right behind vKill that halts or starts the target leaves no way to a stale cache |
| `GdbStaleness.SetExactly` | extensions/cads-board-bridge/src/rsp/server.ts:574-577 | Z1 keeps the cache coherent exactly if it plants nothing in RAM, the page is not cached, or the instruction is already there |
| `GdbStaleness.ClearExactly` | extensions/cads-board-bridge/src/rsp/server.ts:574-577 | z0 and z1 keep it coherent exactly if no instruction is taken out of RAM, the page is not cached, or the user's bytes are the same |
| `GdbStaleness.ReadThenZ1` | extensions/cads-board-bridge/src/rsp/server.ts:574-577 | From every initial state without that instruction at the start of RAM: read the page there, set a breakpoint in it with Z1, and the stopped session holds a stale page |
| `GdbStaleness.KillGoesStale` | extensions/cads-board-bridge/src/rsp/server.ts:408-411 | From every initial state vKill leads to a stopped session with a stale page, whether the page was read before or after it |
| `GdbAllStop.StepKeepsBelief` | extensions/cads-board-bridge/src/rsp/server.ts:187-239 | While no start overtakes a stop reply, every step keeps the client's belief right: it waits while a start is unanswered, and at most one reply too many is still to come |
| `GdbAllStop.StopReplies` | extensions/cads-board-bridge/src/rsp/server.ts:203-239 | In every all-stop run, with any packets, in which no start overtakes a stop reply: `running` holds exactly while a resume is unanswered; a resume gets at most two stop replies, two exactly if a halted event crossed an interrupt, a step one; a client that does not wait is right, and one that waits will hear |
| `GdbAllStop.ReadsAreDirect` | extensions/cads-board-bridge/src/rsp/server.ts:537-541 | In these runs, if not spoiled, every read is answered, with the bytes that a direct read of the target would give |
| `GdbOvertaking.OvertakesExactly` | extensions/cads-board-bridge/src/rsp/server.ts:227-239 | An all-stop client in step can come to take a running target for a stopped one if and only if a resume or step it sends overtakes a stop reply |
| `GdbOvertaking.OvertakingGoesStale` | extensions/cads-board-bridge/src/rsp/server.ts:227-239 | After every run in step, an overtaking resume or step can be followed by a read answered with bytes that memory no longer holds |
| `GdbOvertaking.SecondStopReply` | extensions/cads-board-bridge/src/rsp/server.ts:227-235 | From every initial state there is a run in step in which a halt crosses an interrupt and the next resume overtakes the second stop reply |
| `GdbOvertaking.StaleReadFromStart` | extensions/cads-board-bridge/src/rsp/server.ts:497-557 | So from every initial state a client that keeps to the all-stop rule can be given stale memory |
| `GdbClient.RunIsSeen` | extensions/cads-board-bridge/src/rsp/server.ts:187-239 | In every run in step, what the client has sent and heard since its last start bounds the stop replies still to come: one in all, two if it has sent Ctrl-C while it waited for a resume |
| `GdbClient.CautiousIsInStep` | extensions/cads-board-bridge/src/rsp/server.ts:187-239 | An all-stop client that starts nothing after interrupting a resume until a second stop reply has come is always in step, so StopReplies and ReadsAreDirect hold for it |
| `GdbClient.NoInterruptIsCautious` | extensions/cads-board-bridge/src/rsp/server.ts:227-239 | A client that sends no Ctrl-C while it waits is such a client |
| `GdbClient.RiskExactly` | extensions/cads-board-bridge/src/rsp/server.ts:227-239 | After every run in step, a resume sent now overtakes a stop reply in some run that looks the same to the client if and only if it has interrupted its last resume and taken the first stop reply for the answer |
| `GdbSession.GdbSession.CacheIsRight` | extensions/cads-board-bridge/src/rsp/server.ts:199-213 | What the invariant kept by every method says: while stopped and idle, and unless spoiled, the cache holds what memory holds |
| `GdbSession.GdbSession.SendStopReply` | extensions/cads-board-bridge/src/rsp/server.ts:215-225 | The text for each reason: T05thread:1;hwbreak:; for a breakpoint, T05thread:1; for a watchpoint, T0bthread:1; for a fault, otherwise T02thread:1; if a Ctrl-C is pending and T05thread:1; if not; none is pending afterwards |
| `GdbSession.GdbSession.OnHalted` | extensions/cads-board-bridge/src/rsp/server.ts:203-213 | A halted event is answered exactly if the session is running, by the text and signal for its reason: SIGTRAP for breakpoints and watchpoints, SIGSEGV for faults, else SIGINT exactly if a Ctrl-C that counts is unanswered; the session is stopped and its cache empty afterwards |
| `GdbSession.GdbSession.InterruptBegin` | extensions/cads-board-bridge/src/rsp/server.ts:227-230 | Asks for a halt exactly if the session is running |
| `GdbSession.GdbSession.InterruptEnd` | extensions/cads-board-bridge/src/rsp/server.ts:230-238 | Sends a stop reply whether or not the session is still running, with SIGINT exactly if the Ctrl-C is still unanswered; after a failed halt nothing changes |
| `GdbSession.GdbSession.ReadBegin` | extensions/cads-board-bridge/src/rsp/server.ts:497-513 | A read is served at once exactly if it is empty or all its pages are cached, and then with memory while the session is stopped and unspoiled; otherwise it asks for the missing pages or the exact range |
| `GdbSession.GdbSession.ReadEnd` | extensions/cads-board-bridge/src/rsp/server.ts:514-541 | The reply is what the protocol logs, memory while stopped and unspoiled; the fetched pages join the cache, and a paged read that has lost pages meanwhile is exactly what is not answered |
| `GdbSession.GdbSession.ResumeEnd` | extensions/cads-board-bridge/src/rsp/server.ts:550-557 | The flag is set exactly if the run operation succeeded |
| `GdbSession.GdbSession.StepEnd` | extensions/cads-board-bridge/src/rsp/server.ts:559-565 | A step that succeeded is answered by one stop reply with the text and signal for the probe's reason, so a step into a fault by SIGSEGV |
| `GdbSession.GdbSession.BreakpointEnd` | extensions/cads-board-bridge/src/rsp/server.ts:567-588 | The cache is emptied for Z0 only and kept for z0, z1 and Z1 |
| `GdbSession.GdbSession.HaltingEnd` | extensions/cads-board-bridge/src/rsp/server.ts:351-384 | Halting commands leave the session stopped with an empty cache, and whatever was spoiled is forgotten |
| `PollerProtocol.StepKeepsInv` | extensions/cads-probe/src/driver/probe.ts:315-357 | Every interleaving of timers, ticks, operations, failures and a pulled cable keeps the poller invariant |
| `PollerProtocol.OneCurrentChain` | extensions/cads-probe/src/driver/probe.ts:315-357 | In every run at most one poll chain carries the current generation, although timer handles can be overwritten |
| `PollerProtocol.HaltedEventsAreSeparated` | extensions/cads-probe/src/driver/probe.ts:324-331 | In every run two halted events have a transition to running between them |
| `PollerProtocol.OperationBegins` | extensions/cads-probe/src/driver/probe.ts:396-466 | Halting, stepping, resetting, flashing, attaching and detaching stop the poller before anything else; running and looking leave it alone; attaching forgets the connection first |
| `PollerProtocol.OperationMeans` | extensions/cads-probe/src/driver/probe.ts:396-466 | Running and reset-running leave a running core with a live chain, the halting operations a halted core; looking and attaching record what was seen, with a live chain for a running core; detaching and unplugging leave nothing known |
| `PollerProtocol.TickMeans` | extensions/cads-probe/src/driver/probe.ts:321-331 | A tick that sees the core halted records it and goes on to report it; any other look changes nothing |
| `PollerProtocol.StepKeepsWatchedExactly` | extensions/cads-probe/src/driver/probe.ts:315-466 | A step keeps a running core watched exactly if it is not one of two: pulling the cable, or a non-fatal failure of an operation that has stopped the poller and not yet recorded the core; failing ticks and all other failures keep it |
| `PollerProtocol.RunningCoreIsWatched` | extensions/cads-probe/src/driver/probe.ts:315-357 | In every run without such a step, whatever else fails: core running, USB connected and mutex free imply a live current chain |
| `PollerProtocol.LosingStepLoses` | extensions/cads-probe/src/driver/probe.ts:396-466 | The first such step of a run leaves a running core without a live chain |
| `PollerProtocol.FailedOperationExactly` | extensions/cads-probe/src/driver/probe.ts:396-466 | A failing operation loses the watch on a running core exactly if it stops the poller first |
| `PollerProtocol.RecordedHaltExactly` | extensions/cads-probe/src/driver/probe.ts:324-331 | A halt that a tick has recorded is reported by it exactly if reading reason and pc does not fail |
| `PollerProtocol.FailedReportIsLost` | extensions/cads-probe/src/driver/probe.ts:324-340 | If it fails, the halt is never reported: the next event, if any, is that the core runs again |
| `ProbeService.ProbeService.StartPoller` | extensions/cads-probe/src/driver/probe.ts:315-349 | Afterwards a chain of the current generation is live; a second start changes nothing |
| `PollerProtocol.StopKeepsInv` | extensions/cads-probe/src/driver/probe.ts:351-357 | After a stop no chain carries the current generation and no timer handle is held |
| `ProbeService.ProbeService.StopPoller` | extensions/cads-probe/src/driver/probe.ts:351-357 | The method is that stop, on all fields, and leaves no live chain |
| `ProbeService.ProbeService.RunningCoreHasLiveChain` | extensions/cads-probe/src/driver/probe.ts:315-357 | What the invariant kept by every method says: unless the watch was lost, a running core of a connected probe has a live chain whenever the mutex is free |
| `ProbeService.ProbeService.TickRead` | extensions/cads-probe/src/driver/probe.ts:321-331 | A tick that finds the core halted records Halted, keeps the mutex and is about to report; any other look changes nothing and releases the mutex |
| `ProbeService.ProbeService.TickFinished` | extensions/cads-probe/src/driver/probe.ts:341-347 | A tick re-arms exactly if its generation is current, the core runs and USB is connected; otherwise its chain is dead and no timer is remembered |
| `ProbeService.ProbeService.OpStarted` | extensions/cads-probe/src/driver/probe.ts:396-466 | Exactly the operations that stop the core, attach or detach leave no live chain and no timer; the others leave the poller alone |
| `ProbeService.ProbeService.OpActed` | extensions/cads-probe/src/driver/probe.ts:396-466 | On the fields: run and reset-run record Running and leave a live chain; halt, step, reset-halt and flash record Halted; looking and attaching record what was seen, with a live chain if it runs; detach and unplug record nothing known; and each is the step of the protocol and keeps its invariants |
| `ProbeService.ProbeService.OpFailed` | extensions/cads-probe/src/driver/probe.ts:385-394 | An operation that throws releases the mutex and loses the watch exactly in the case above |
| `ProbeService.ProbeService.MarkFatal` | extensions/cads-probe/src/driver/probe.ts:281-289 | A fatal error stops the poller and marks the probe; any other changes nothing |
| `Serial.StepKeepsInv` | extensions/cads-probe/src/driver/mutex.ts:17-32 | Calls, starts and ends of bodies, thrown or not, keep the chain in order |
| `Serial.BodiesRunOneByOne` | extensions/cads-probe/src/driver/mutex.ts:17-32 | In every run bodies never overlap and run in call order, and the depth is at most one |
| `Serial.NobodyIsStuck` | extensions/cads-probe/src/driver/mutex.ts:17-32 | While a call is unfinished, the first unfinished one can start or is running and can end |
| `Serial.EndReleasesNext` | extensions/cads-probe/src/driver/mutex.ts:24-30 | The end of a body, even by an exception, is what lets the next call start |
| `Serial.Mutex.RunExclusive` | extensions/cads-probe/src/driver/mutex.ts:17-22 | A call waits for exactly the call before it |
| `Serial.Batch` | extensions/cads-probe/src/driver/probe.ts:366-377 | Results and final state are those of running the operations one by one up to and including the first failure; all ok implies as many results as requests |
| `Breakpoints.ComparatorRoundTrip` | extensions/cads-probe/src/driver/breakpoints.ts:78-86 | Decoding a comparator gives its address back exactly if the unit is version 2 or the address is below 0x20000000 |
| `Breakpoints.ComparatorWords` | extensions/cads-probe/src/driver/breakpoints.ts:78-86 | Words for halfwords near 0x08000100 in both versions of the unit |
| `Breakpoints.EnabledExactly` | extensions/cads-probe/src/driver/breakpoints.ts:78-127 | A comparator is enabled exactly if its slot is occupied |
| `Breakpoints.SetKeepsInv` | extensions/cads-probe/src/driver/breakpoints.ts:89-109 | Setting keeps: RAM is the user's RAM overlaid with 0xbe00 at exactly the software breakpoints, slots are distinct and mirrored, free ones disabled |
| `Breakpoints.ClearKeepsInv` | extensions/cads-probe/src/driver/breakpoints.ts:111-127 | Clearing keeps the same |
| `Breakpoints.ClearAllRestores` | extensions/cads-probe/src/driver/breakpoints.ts:159-181 | Afterwards RAM is exactly the user's RAM and every comparator is disabled |
| `Breakpoints.RunKeepsOverlay` | extensions/cads-probe/src/driver/breakpoints.ts:89-200 | The overlay holds after every sequence of set, clear, clearAll, reapply and foreign writes that spare planted halfwords |
| `Breakpoints.SetThenClear` | extensions/cads-probe/src/driver/breakpoints.ts:89-127 | Clearing a breakpoint just set restores RAM, comparators and tables |
| `BreakpointUnit.BreakpointUnit.SetBreakpoint` | extensions/cads-probe/src/driver/breakpoints.ts:89-109 | Version 1 takes 0x20000000 up to 0x7fffffff to RAM and everything else to the comparators, version 2 takes everything there; success is the set step, the breakpoint is in its table and in RAM the halfword is 0xbe00; a refusal or a failed access changes nothing, and the refusal means that all slots are taken; other breakpoints stay |
| `BreakpointUnit.BreakpointUnit.ClearBreakpoint` | extensions/cads-probe/src/driver/breakpoints.ts:111-127 | Success is the clear step and says whether there was a breakpoint; afterwards the user's halfword is back and there is none, except for one in RAM behind a comparator; a failed access changes nothing; other breakpoints stay |
| `BreakpointUnit.BreakpointUnit.ClearAll` | extensions/cads-probe/src/driver/breakpoints.ts:159-181 | RAM afterwards is the user's RAM except for exactly the halfwords whose restoring failed |
| `Breakpoints.ReapplyRestores` | extensions/cads-probe/src/driver/breakpoints.ts:184-200 | From tables in order and free comparators at zero, reapply gives the invariant back whatever the occupied comparators held |
| `BreakpointUnit.BreakpointUnit.Reapply` | extensions/cads-probe/src/driver/breakpoints.ts:184-200 | The loop is that step; a failed access leaves tables and RAM in order |
| `RspPacket.AnySplitIsTheSame` | extensions/cads-board-bridge/src/rsp/packet.ts:16-52 | However a byte stream is split into calls of feed, items and final state are the same |
| `RspPacket.UnescapeBody` | extensions/cads-board-bridge/src/rsp/packet.ts:56-71 | Unescaping undoes the escaping of every payload |
| `RspPacket.BodyIsPlain` | extensions/cads-board-bridge/src/rsp/packet.ts:78-86 | Between $ and # an encoded payload has no other $, # or * |
| `RspPacket.OnlySpecialIsEscaped` | extensions/cads-board-bridge/src/rsp/packet.ts:78-86 | Exactly the bytes #, $, * and } cost one more byte; a payload without them is sent as it is |
| `RspPacket.FlipIsXor` | extensions/cads-board-bridge/src/rsp/packet.ts:60-80 | Escaping toggles bit 5 |
| `RspPacket.RunLengthMeans` | extensions/cads-board-bridge/src/rsp/packet.ts:62-66 | A byte, a * and the character of code 29 + n stand for n + 1 such bytes |
| `RspPacket.SumIsTotal` | extensions/cads-board-bridge/src/rsp/packet.ts:36-82 | The checksum is the sum of the bytes between $ and # modulo 256 |
| `RspPacket.ChecksumDigits` | extensions/cads-board-bridge/src/rsp/packet.ts:39-87 | It is written in two small hexadecimal digits and read in either case |
| `RspPacket.FrameParses` | extensions/cads-board-bridge/src/rsp/packet.ts:16-52 | Any frame yields one packet, marked good exactly if its two checksum characters parse to the sum of the body |
| `RspPacket.StreamParses` | extensions/cads-board-bridge/src/rsp/packet.ts:74-88 | Parsing any concatenation of acks, nacks, Ctrl-C bytes and encoded packets yields exactly that sequence |
| `RspPacket.NoiseIsDropped` | extensions/cads-board-bridge/src/rsp/packet.ts:20-30 | Between messages all other bytes are dropped |
| `RspPacket.ChangedByteIsNoticed` | extensions/cads-board-bridge/src/rsp/packet.ts:39-47 | A frame with one body byte changed into anything but the end mark is reported as bad |
| `RspPacket.PacketParser.Feed` | extensions/cads-board-bridge/src/rsp/packet.ts:16-52 | The loop is the byte-wise parser that these lemmas are about |
| `RspPacket.UnescapePayload` | extensions/cads-board-bridge/src/rsp/packet.ts:56-71 | The in-place index loop computes the unescaping, run lengths included |
| `RspPacket.EncodePacket` | extensions/cads-board-bridge/src/rsp/packet.ts:74-88 | The running checksum and the escapes add up to the encoding that parses back |
| `Elf.ElfToImage` | extensions/cads-board-bridge/src/elf.ts:15-43 | The image starts at the least and ends at the greatest loaded address, each byte is that of the last segment over it or 0xff; each error is reported exactly in its case |
| `Elf.HeaderMeans` | extensions/cads-board-bridge/src/elf.ts:24-34 | A program header as it is written in the file, in its byte order: exactly loadable ones with contents give a segment, at the physical address and with the bytes of the file from its offset on |
| `Elf.TableMeans` | extensions/cads-board-bridge/src/elf.ts:20-25 | The fields at 28, 42 and 44 of the file header say where the headers begin, how long each is and how many there are |
| `Elf.ImageIsUnique` | extensions/cads-board-bridge/src/elf.ts:36-42 | These conditions leave one image only |
| `Elf.CopiesInAddressOrder` | extensions/cads-board-bridge/src/elf.ts:36-41 | Copying in stable address order leaves the byte of the covering segment with the greatest address, the last in the file among equals |
| `Elf.UncoveredStaysErased` | extensions/cads-board-bridge/src/elf.ts:40-41 | Bytes that no segment covers stay 0xff |
| `Elf.Place` | extensions/cads-board-bridge/src/elf.ts:37-42 | Every copy fits into the image allocated for the greatest end |
| `Elf.ReadSegments` | extensions/cads-board-bridge/src/elf.ts:24-34 | Only loadable segments with contents are taken, in file order; a header beyond the file is an error |
| `Courses.ValidateManifest` | extensions/cads-tutor/src/schema.ts:123-142 | Accepts exactly the manifests whose ids are well-formed and where no module and no step occurs twice |
| `Courses.CheckSteps` | extensions/cads-tutor/src/schema.ts:134-140 | One module's steps pass exactly if all are well-formed, new and distinct |
| `Courses.IdSyntax` | extensions/cads-tutor/src/schema.ts:33 | Ids that are accepted and ids that are not |
| `Courses.LoadSteps` | extensions/cads-tutor/src/loader.ts:122-197 | The table holds exactly the listed steps that have a file, each with its English variant or else the German one |
| `Courses.EnglishComesFirst` | extensions/cads-tutor/src/loader.ts:122-197 | A step has the contents of its last English file, or of its last German one if none is English, and is left out exactly if it has none |
| `Courses.LoaderLoads` | extensions/cads-tutor/src/loader.ts:122-197 | From an accepted manifest and any files, the table is what the lemmas on courses need |
| `Courses.OrderedStepsOnce` | extensions/cads-tutor/src/loader.ts:253-262 | The enumeration holds each loaded step exactly once and nothing else |
| `Courses.AuthoredOrder` | extensions/cads-tutor/src/loader.ts:253-262 | Of two loaded steps the one in an earlier module, or listed earlier in the same module, comes first |
| `Courses.CollectOrderedSteps` | extensions/cads-tutor/src/loader.ts:253-262 | The nested loops compute that enumeration |
| `Courses.AdjacentAt` | extensions/cads-tutor/src/session.ts:173-178 | The neighbour of the i-th step is the step at i plus delta, if there is one |
| `Courses.NextThenPrevious` | extensions/cads-tutor/src/session.ts:173-178 | Next then previous, and the other way round, returns to the same step |
| `Progress.KeysAreInjective` | extensions/cads-tutor/src/types.ts:170-172 | The id syntax makes "course/step" keys unambiguous |
| `Progress.MarksAreGood` | extensions/cads-tutor/src/session.ts:108-134 | After every history, each step with tasks has its completion mark exactly if it is done |
| `Progress.DoneExactly` | extensions/cads-tutor/src/session.ts:61-68 | After every history a step with tasks is done exactly if the last result of every task is a pass, so a failed re-run re-opens it; one without tasks exactly if some action has named it |
| `Progress.UnlockedExactly` | extensions/cads-tutor/src/session.ts:70-86 | After every history a step is unlocked exactly if all steps of every prerequisite course that is present, which must have some, and all required steps of its own course are done by that measure |
| `Progress.AnswerIsLast` | extensions/cads-tutor/src/session.ts:136-141 | After every history the answer kept for a task is the last one given |
| `Progress.CurrentIsLastOpened` | extensions/cads-tutor/src/session.ts:150-155 | After every history the session points at the step opened last |
| `Progress.FailuresCounted` | extensions/cads-tutor/src/session.ts:57-122 | After every history, a failure count is the number of failed results since the last pass, exactly for ids that are not inherited property names, and for these from their first pass on; otherwise it is no number |
| `Progress.ConstructorIsNotCounted` | extensions/cads-tutor/src/session.ts:57-59 | The id "constructor" is accepted, and its first failure leaves NaN instead of one |
| `Progress.TierIsHighestExactly` | extensions/cads-tutor/src/session.ts:143-148 | After every history, a hint tier is the highest one shown, exactly for ids that are not inherited property names |
| `Progress.PassNeverLocks` | extensions/cads-tutor/src/session.ts:75-134 | Passing a task never locks a step of any course |
| `Progress.UnlockingExplained` | extensions/cads-tutor/src/session.ts:108-134 | A step that a result unlocks requires the recorded step, which became done by it (course not its own prerequisite) |
| `Progress.FirstOpenIsFirst` | extensions/cads-tutor/src/session.ts:163-171 | The step found is undone and unlocked and every step before it is not; none is found exactly if there is none |
| `Progress.MissedWrapExactly` | extensions/cads-tutor/src/session.ts:162-171 | From a step none is found although one is open in the course, exactly if one is on offer up to that step and none behind it |
| `Progress.NextOpenStepExists` | extensions/cads-tutor/src/session.ts:62-86 | With acyclic requirements and finished prerequisite courses, a step is offered exactly while one is undone |
| `Progress.DeadlockNeedsCycle` | extensions/cads-tutor/src/session.ts:75-86 | If none is offered although some are undone, every undone step requires another undone one |
| `Progress.RoundCompletes` | extensions/cads-tutor/src/session.ts:108-155 | Opening a step and passing its tasks makes that step done and changes no other |
| `Progress.WorkThrough` | extensions/cads-tutor/src/session.ts:163-171 | Repeating this with nextOpenStep finishes the course in exactly as many rounds as there were undone steps |
| `Progress.SessionState.RecordTaskResult` | extensions/cads-tutor/src/session.ts:108-134 | The state is returned as stored, for inherited names too; going by the history alone, `stepCompleted` is reported exactly if the last results of all tasks are passes now and were not before, and `unlocked` lists exactly the steps that became unlocked, in authored order; each of them requires the recorded step |
| `Progress.SessionState.NextOpen` | extensions/cads-tutor/src/session.ts:163-171 | The loop finds the step that the lemmas on nextOpenStep are about |
| `Progress.SessionState.SetAnswer` | extensions/cads-tutor/src/session.ts:136-141 | The whole new session: the one answer is replaced and its step counts as started; the history grows by this action |
| `Progress.SessionState.SetHintTier` | extensions/cads-tutor/src/session.ts:143-148 | The whole new session: the one tier is raised to the given one, never lowered (no number stays no number), and its step counts as started; the history grows by this action |
| `Progress.SessionState.SetCurrentStep` | extensions/cads-tutor/src/session.ts:150-155 | The whole new session: the step is current and counts as started, with its tasks as they were; the history grows by this action |
| `Progress.HistoryLosesNothing` | extensions/cads-tutor/src/session.ts:108-155 | From any point of any history on, started steps stay started, answers stay given, and hint tiers that are numbers stay numbers and never drop |
| `Transfers.WholeWordsExactly` | extensions/cads-probe/src/driver/cortexm.ts:313 | The signed mask gives the whole words of a remainder exactly below 2 gigabytes and is negative from there on |
| `Transfers.CheckedReadExactly` | extensions/cads-probe/src/driver/cortexm.ts:303-332 | A pass with a good status gives memory for certain exactly if the access takes one transfer; for every other range there is a memory and a pass with a good status and wrong bytes |
| `Transfers.CheckedWriteExactly` | extensions/cads-probe/src/driver/cortexm.ts:334-355 | A write with a good status has stored all its bytes for certain exactly if it takes one transfer |
| `Transfers.OneTransferExactly` | extensions/cads-probe/src/driver/cortexm.ts:307-323 | Which accesses that are: the bytes up to a word boundary, fewer than four bytes, or whole words of at most 1024 bytes |
| `Transfers.AcrossFlashStart` | extensions/cads-probe/src/driver/cortexm.ts:303-332 | Two kilobytes across the start of the flash: junk in front of memory with a good status |
| `ChunkedMemory.CortexM.ReadChunks` | extensions/cads-probe/src/driver/cortexm.ts:305-323 | The loops make exactly the transfers of that split, aligned words of at most 1024 bytes and bytes of at most 64, and the result is memory if the count of failed transfers has not risen |
| `ChunkedMemory.CortexM.ReadMem` | extensions/cads-probe/src/driver/cortexm.ts:303-332 | A checked normal return is a pass with a good status, so memory if the access takes one transfer; it is memory in any case if no transfer has failed since the last pass began; an error takes a failure in each of the passes |
| `ChunkedMemory.CortexM.WriteChunks` | extensions/cads-probe/src/driver/cortexm.ts:336-353 | The same split for writing; nothing outside what was sent so far changes |
| `ChunkedMemory.CortexM.WriteMem` | extensions/cads-probe/src/driver/cortexm.ts:334-355 | Memory outside the range never changes; a checked normal return is a pass with a good status, so everything is stored if the access takes one transfer; if no transfer has failed, it returns normally and everything is stored |
| `Base64.RoundTrip` | extensions/cads-probe/src/driver/util.ts:45-82 | Decoding an encoding gives back every byte array; the encoding has 4·⌈n/3⌉ characters |
| `Base64.EncodingIsBitString` | extensions/cads-probe/src/driver/util.ts:45-61 | The digits are the bits of the bytes cut into sixes and filled up with zeros (section 4 of RFC 4648) |
| `Base64.ToBase64` | extensions/cads-probe/src/driver/util.ts:45-61 | The loop over groups of three and the special last group compute the encoding that RoundTrip is about |
| `Base64.FromBase64` | extensions/cads-probe/src/driver/util.ts:66-82 | The loop that stops writing at the computed length computes the decoding, foreign characters skipped |
| `Base64Alphabet.AlphabetIsStandard` | extensions/cads-probe/src/driver/util.ts:42 | The 64 characters and their order (table 1 in section 4 of RFC 4648) |
| `Base64Alphabet.ForeignIsSkipped` | extensions/cads-probe/src/driver/util.ts:66-68 | A character outside the alphabet makes no difference to decoding, wherever it stands |
| `Base64Alphabet.OneByteVector` | extensions/cads-probe/src/driver/util.ts:45-61 | The first two test vectors of section 10 of RFC 4648 |
| `Base64Alphabet.TwoByteVector` | extensions/cads-probe/src/driver/util.ts:45-61 | The third one, with one character of padding |
| `Base64Alphabet.ThreeByteVector` | extensions/cads-probe/src/driver/util.ts:45-61 | The fourth one, without padding |

## Left out

- WebUSB and WebSerial transport, ST-Link command framing, USB retries: input and output. Their size and alignment checks are preconditions of the transfer methods.
- The editor glue, web views, internationalisation, the language-model platform and mastery; the session broker, whose capacity check and start are not under one lock.
- Clocks: a deadline is a nondeterministic choice between waiting and giving up. Time stamps are present or absent; messages, language and the log are not modelled.
- The target's instruction semantics: while the core runs, memory changes arbitrarily.
- FLASH_CR is a record of its fields in the driver; `FlashWords` ties it to 32-bit words. MER1, EOPIE, ERRIE and the reserved bits are not part of the record. A mass erase and an erase of a sector outside the bank are modelled as destroying everything.
- STRT is cleared by the hardware as in the source's own mock; BSY and the error flags are nondeterministic, and the error flags are only final while BSY is clear. Erasing never fails without an error flag; the source does not read erased bytes back either.
- Halting the core before unlocking is a request whose effect on the core is not modelled.
- Stm32Flash.Stm32FlashFS.Write: is proved for images inside the bank, which the guard in `Flash` ensures; progress callbacks are left out.
- Stm32Flash.Stm32FlashFS.Flash: `bpu.clearAll` before and `resetHalt` after the write are not part of it.
- VFlash.Transaction.FlashDone: chunks that overlap or are empty are flashed as the code does, but what they leave in flash is only said image by image (`FlashedFromTo`).
- The flash operation inside a vFlash transaction requires word-aligned image addresses; an unaligned image makes the transaction fail (VFlash.Transaction.FlashDone).
- The GDB protocol has succeeding probe operations and no USB disconnect; what a handler does when its operation fails is in `GdbSession`, one handler at a time.
- GdbCoherence.StoppedReadIsDirect: reads answered while the session is running are not covered; a client that keeps to the all-stop rule and does not overtake has none (GdbAllStop.ReadsAreDirect).
- A vKill packet is one operation; its batch clears the breakpoints and then runs the target. Detach and the restart packet end the session and are left out, as is the stop-reply text that answers `?`.
- GdbProtocol treats vFlashDone as one operation; the operations per image are in `VFlash`. Register packets, watchpoints, feature queries and memory maps are harmless packets without content.
- ProbeService.ProbeService.OpActed: serial port operations and register access are operations that leave core state and poller alone.
- Data watchpoints (DWT) in the breakpoint unit, and the identification of the unit.
- BreakpointUnit.BreakpointUnit.SetBreakpoint: `rawAddr & 0xfffffffe` is signed in JavaScript, so addresses from 0x80000000 on count as below 0x20000000 and are given to the hardware; the model does the same. A failed access is taken to have had no effect.
- ChunkedMemory.CortexM.ReadMem: ranges of 2 gigabytes and more are excluded, see Transfers.WholeWordsExactly; so are ranges that wrap around the address space.
- ChunkedMemory.CortexM.WriteMem: the same.
- In the GDB protocol a read that is answered is exact, as pages are; exact requests of several transfers are so if no transfer fails (Transfers.CheckedReadExactly).
- RspPacket: bytes are numbers from 0 to 255; the hexadecimal helpers are modelled only as far as the checksum needs them.
- Elf: symbol lookup and file access. Allocation of the image cannot fail.
- Courses.ValidateManifest: the other fields of a manifest are assumed valid; step files are already validated values, and diagnostics are left out.
- Sessions are not saved and reloaded; JSON would turn a failure count that is not a number into null.
- Progress: two courses in a library never have the same id, which the loader ensures (extensions/cads-tutor/src/loader.ts:228-240).
- Base64: shifts and masks on disjoint bit fields are written as multiplication and division.
