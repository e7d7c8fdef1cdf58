# Buffer, flash and protocol logic of the ESP32 RA8875 demo

A Dafny model of the hard parts of the firmware tree: the application-trace
transport, the OTA update engine with its boot selection and rollback, the C++
static-initialisation guards, the I2S and DAC DMA drivers, the console argument
splitter, the eFuse table verifier, and the display firmware's own glyph drawing
and button handling.  Apart from the named examples, every claim below is about all
inputs or all runs.

`dafny verify dfyconfig.toml` checks the project.

| file | models |
|---|---|
| `AppTraceRing.dfy` | the ring buffer that grants contiguous regions and may wrap early |
| `TraceRecords.dfy`, `MemBufs.dfy` | trace packets, and the two alternating blocks with a pending ring and a host-to-target ring |
| `OtaWriter.dfy` | streaming an image into flash: lazy erase and the 16-byte cache |
| `OtaBoot.dfy`, `OtaTool.dfy`, `OtaReboot.dfy`, `OtaRuns.dfy` | the two select entries: set, roll back, the host tool, the bootloader over reboots, whole histories |
| `StaticInitGuards.dfy` | guard variables for any number of tasks and guards |
| `I2sQueue.dfy`, `I2sPreload.dfy` | the DMA ring against the message queue; preloading |
| `DacContinuous.dfy` | spreading data over DMA buffers, once and cyclically |
| `SplitArgv.dfy` | the in-place command line splitter |
| `EfuseTable.dfy` | the eFuse table verifier |
| `Glyphs.dfy`, `ButtonScreens.dfy` | glyph rectangles; debounced buttons and the screen loop |
| `Common.dfy`, `Arith.dfy` | shared definitions and facts about division |

Shared memory is modelled in the source's own form: rings, blocks, flash cells,
line buffers and DMA buffers are arrays written in place, and objects whose fields
change are classes.  Concurrent code is a step relation whose steps are the
accesses other tasks, cores or interrupts can see.  The hardware's answers (swap
accepted or refused, a DMA buffer available or a timeout, a power cut, a checksum
function, whether an image is good) are inputs.

## What turned out differently from the documentation

- Finishing an encrypted sequential update can program the cached tail onto a
  sector that no write erased.  This happens exactly when the write position is a
  multiple of the sector size, the last write left at least one, but no more, cached
  bytes than it found, and no longer write was turned down before for its first byte
  (`Handle.StaleTail`, `Handle.CleanTail`); `StaleTailRun` is such a run.
- Setting a slot works exactly when `Settable` says so: the number to be written
  must be below the empty marker, and a valid copy numbered 0 combined with the last
  slot fails unless the slot count divides 2^32 (`ZeroSeqExample`).  Where the number
  does not fit 32 bits the search finds another slot's number or never ends; it never
  ends exactly if no number from the base up to 2^32 has the slot's residue modulo the
  power of two in the slot count (`SearchOverflows`, `SearchHangs`, `HangExample`).
- Setting the test partition succeeds and makes slot 0 the one to boot, because only the
  low four bits of the subtype are used (`OtaData.SetBootPartition`).
- A power cut while the factory partition is being chosen can lead to a partition that
  is neither the old nor the new choice (`FactoryCut` says exactly when, `FactoryCutExample`
  shows it).  One while an application confirms itself has the effect of giving it up.
- A rollback is announced as going to an application other than the running one.
  Giving up returns to the same one exactly when the other copy is valid and names the
  same slot, or is not valid, the slot is 0 and there is no factory partition
  (`RollbackLeaves`, `SameSlotExample`).
- The bootloader counts all slots in the partition table, the application only those
  without a gap from slot 0 on.  What an update boots first, and keeps or abandons, is
  the slot that the number names under the bootloader's count (`FirstBoot`); the two
  agree exactly as `Agreeing` says (`AgreesWithApp`), and `GapExample` is a table with a
  gap in which the bootloader goes for a slot that does not exist.
- An unconfirmed update leads back to the choice made before it, except on a device
  without active copy and factory partition (`UnconfirmedRollsBack`, `RollsElsewhereExample`).
- Over any history of sets, confirmations, give-ups, resets and power cuts there is
  always a good application to boot (for the bootloader: in tables without gaps), exactly
  unless the test partition is set while slot 0 holds no good image (`AlwaysBootsGood`,
  `HarmfulExample`).
- The host tool never looks at or changes the image state, so the device may ignore
  its choice: `DeviceFollows` says exactly when, and `IgnoredExample` is such a case.
- The guard code's comment that a waiting task's next take succeeds at once holds
  exactly if there are fewer than two guards or fewer than two tasks (`LostWakeUpIff`);
  two tasks with two guards can block each other for good over a guard that is ready (`Deadlock`).
- A complete trace flush leaves packets pending exactly if there were some behind an
  empty block, which takes a SystemView build with blocks smaller than a packet
  (`Proto.Flush`, `SmallBlockRun`); and what it sends reaches the host exactly if no
  payload has 32 KiB or more, for lack of bits in the header (`HostReads`, `LargePacketRun`).
- A cyclic DAC write of exactly the total buffer size, which is admitted, leaves half
  a buffer unloaded (`CyclicFullSize`, `LeftOverClosed`).
- Hardware ahead of the I2S interrupt can be working on a buffer that is still
  queued; `DmaBufferQueued` says exactly when, `DmaBufferQueuedExample` shows it.
- The eFuse input format admits negative start bits, and with them a verified block
  can hold more bits than it has (`NegativeStartExample`).
- The check that eFuse names are unique does not make the C names so.  In a table that
  passes, they are exactly if those of the fields with a dot or a group are (`NoClashIff`);
  `UnflaggedClash`, `GroupedClash` and `TwinsPass` are tables that pass and clash.

## Model

| member | source | states |
|---|---|---|
| AppTraceRing.Ring.constructor | components/components/app_trace/include/esp_app_trace_util.h:114-120 | a new ring is an empty queue of full size |
| AppTraceRing.Ring.Produce | components/components/app_trace/app_trace_util.c:89-129 | a region is granted exactly when there is room; its cells held no unread byte and become the newest part of the queue, also across an early wrap; a refusal changes nothing and means that nowhere could that many cells in a row be written |
| AppTraceRing.RoomIff | components/components/app_trace/app_trace_util.c:89-129 | there is room exactly if some cells in a row hold no unread byte and stop short of the reader, wherever they are |
| AppTraceRing.Ring.Consume | components/components/app_trace/app_trace_util.c:131-155 | exactly the oldest n bytes leave the queue, and the full size comes back when the reader wraps |
| AppTraceRing.Ring.ReadSize | components/components/app_trace/app_trace_util.c:157-168 | exactly the unread bytes in one piece from the read position on; zero exactly when the queue is empty |
| AppTraceRing.Ring.WriteSize | components/components/app_trace/app_trace_util.c:170-184 | that much can be granted, and without early wraps it is zero exactly when one cell is left |
| AppTraceRing.Ring.WriteSizeIsMost | components/components/app_trace/app_trace_util.c:170-184 | exactly up to that many cells could be written from the write position on |
| AppTraceRing.Granted | components/components/app_trace/app_trace_util.c:93-127 | in-place, exact-wrap and early-wrap grants all append the granted cells to the queue |
| AppTraceRing.Released | components/components/app_trace/app_trace_util.c:133-153 | the released cells are the front of the queue, also when they end the shrunken part |
| AppTraceRing.Filled | components/components/app_trace/app_trace_util.c:89-129 | filling a granted region changes the back of the queue only |
| AppTraceRing.Ring.Put | components/components/app_trace/app_trace_util.c:89-129 | grant and fill append exactly the bytes, or change nothing |
| AppTraceRing.Run | components/components/app_trace/app_trace_util.c:89-184 | every run of writes and reads is a run of a byte queue |
| TraceRecords.RoundTrip | components/components/app_trace/app_trace_membufs_proto.c:20-45 | the host's decoding of encoded packets gives the packets back, core and size included |
| TraceRecords.DecodeOne | components/components/app_trace/app_trace_membufs_proto.c:273-286 | a packet in front of any further bytes is taken off whole |
| TraceRecords.DecodesIff | components/components/app_trace/app_trace_membufs_proto.c:20-45 | a single packet comes back exactly if the header can express its size, and in the SystemView build its core |
| TraceRecords.HostReads | components/components/app_trace/app_trace_membufs_proto.c:20-45 | the host gets exactly the packets, in the SystemView build without their cores, if and only if no payload is longer than the size field can tell |
| TraceRecords.WireExample | components/components/app_trace/app_trace_membufs_proto.c:20-45 | the headers byte by byte in both builds |
| MemBufs.Proto.constructor | components/components/app_trace/app_trace_membufs_proto.c:56-77 | both blocks and both rings are empty |
| MemBufs.Proto.Pump | components/components/app_trace/app_trace_membufs_proto.c:116-137 | pending bytes move to the new block in order, and then the ring is empty or the block full |
| MemBufs.Proto.Swap | components/components/app_trace/app_trace_membufs_proto.c:80-140 | a refused swap changes nothing; an accepted one hands over the block and keeps the stream |
| MemBufs.Proto.SwapWait | components/components/app_trace/app_trace_membufs_proto.c:142-165 | succeeds exactly if a request is accepted before the timer ends, and then takes in what the host left for it; otherwise nothing has changed |
| MemBufs.Proto.WaitForBuffer | components/components/app_trace/app_trace_membufs_proto.c:234-271 | without an accepted swap nothing is granted or changed; with one, pending bytes and packet go into the new block if they fit it |
| MemBufs.Proto.UpBufferWrite | components/components/app_trace/app_trace_membufs_proto.c:288-360 | where the packet goes, case by case: into the block, behind the pending bytes, or after a swap into the other block; it is turned down only if too large or without room, and then nothing is granted |
| MemBufs.MaxPayloadMeaning | components/components/app_trace/app_trace_membufs_proto.c:30-45 | the limit on payloads is what fits an empty block, or one byte in the SystemView build |
| MemBufs.Proto.Flush | components/components/app_trace/app_trace_membufs_proto.c:362-384 | ends because block and pending bytes shrink with every swap; what stays in the block in closed form; a complete flush empties it, and the pending ring exactly unless that was filled behind an empty block; then the host decodes exactly the granted packets if and only if none is longer than the header can tell |
| MemBufs.SmallBlockRun | components/components/app_trace/app_trace_membufs_proto.c:362-384 | a concrete SystemView run whose flush succeeds and leaves the packet pending |
| MemBufs.LargePacketRun | components/components/app_trace/app_trace_membufs_proto.c:20-45 | outside the SystemView build a packet of 32 KiB or more is granted and flushed, and the host reads something else |
| MemBufs.DownBufferWrite | components/components/app_trace/app_trace_membufs_proto.c:206-232 | stores exactly what fits as a prefix, in at most two rounds, without an early wrap |
| MemBufs.Proto.DownBufferGet | components/components/app_trace/app_trace_membufs_proto.c:167-198 | the next stored bytes in one piece, up to the size asked; with nothing stored, the data of the first poll that brings any; nothing is returned exactly if nothing was stored and no poll brought data |
| MemBufs.Serve | components/components/app_trace/app_trace_membufs_proto.c:80-384 | in every run host bytes, used block and pending bytes together are the granted packets in order, and the marker stays within the block |
| OtaWriter.LastErased | components/components/app_update/esp_ota_ops.c:314-328 | where the last sector erased for a write ends, from the cached counts before and after |
| OtaWriter.ErasePlan | components/components/app_update/esp_ota_ops.c:316-324 | the erased ranges reach exactly from the old to the new end of erased flash |
| OtaWriter.Flash.Program | components/components/esp_partition/partition_target.c:63-87 | programming is exact on erased cells and otherwise only clears bits |
| OtaWriter.Flash.Erase | components/components/esp_partition/partition_target.c:123-144 | fails outside the partition or off sector boundaries, otherwise the range reads as ones |
| OtaWriter.Handle.EraseAhead | components/components/app_update/esp_ota_ops.c:314-328 | every sector about to be reached is erased, nothing below the write position is |
| OtaWriter.Handle.StoreCached | components/components/app_update/esp_ota_ops.c:345-381 | cache and whole blocks take up the data in order, the position is the rounded-down total |
| OtaWriter.Handle.Write | components/components/app_update/esp_ota_ops.c:295-388 | the result for every input; accepted data extends the image by exactly its bytes and only erased cells are programmed; a rejected call leaves the image; what the unused cache holds |
| OtaWriter.Handle.CleanTail | components/components/app_update/esp_ota_ops.c:495-504 | for every handle, the block of the cached tail is erased exactly if the stale-tail condition does not hold; otherwise it still holds what was there at first |
| OtaWriter.Handle.End | components/components/app_update/esp_ota_ops.c:453-524 | the image ends up in flash padded to a multiple of 16, unless the tail is stale; then exactly the tail is programmed onto what was there before, for every handle; application and bootloader images are judged by what is then in flash |
| OtaWriter.RunWrites | components/components/app_update/esp_ota_ops.c:295-388 | over any sequence of writes, flash and cache hold the accepted data end to end and no unerased cell was programmed |
| OtaWriter.StaleTailRun | components/components/app_update/esp_ota_ops.c:314-328 | a concrete run into a data partition whose last byte is lost although every call succeeds |
| OtaBoot.GetAppPartitionCount | components/components/app_update/esp_ota_ops.c:542-550 | the length of the gap-free run of slots from 0 |
| OtaBoot.Active | components/components/bootloader_support/src/bootloader_common_loader.c:66-90 | a valid copy with the highest number among the valid ones, or none is valid |
| OtaBoot.FirstSlot | components/components/app_update/esp_ota_ops.c:652-658 | the lowest slot present |
| OtaBoot.DefaultBoot | components/components/app_update/esp_ota_ops.c:642-668 | the factory partition if there is one, else the lowest slot, else the test partition if there is one |
| OtaBoot.FindNext | components/components/app_update/otatool.py:154-163 | the search in unbounded arithmetic finds the closed form of the next number |
| OtaBoot.FindNext32 | components/components/app_update/esp_ota_ops.c:583-587 | the search in 32 bits finds the first wrapped number not below the base, or never ends |
| OtaBoot.TriedRepeats | components/components/app_update/esp_ota_ops.c:583-587 | the numbers tried repeat after 2^32 rounds, so a search that long never ends |
| OtaBoot.NeverEnds | components/components/app_update/esp_ota_ops.c:583-587 | no number found within 2^32 rounds means that none is ever found |
| OtaBoot.SearchFits | components/components/app_update/esp_ota_ops.c:583-590 | where the next number fits 32 bits, the search finds exactly it |
| OtaBoot.SearchOverflows | components/components/app_update/esp_ota_ops.c:583-590 | where it does not, whatever is found names another slot |
| OtaBoot.TriedAre | components/components/app_update/esp_ota_ops.c:583-587 | the numbers tried are exactly those with the right residue modulo the power of two in the count |
| OtaBoot.SearchHangs | components/components/app_update/esp_ota_ops.c:583-587 | for every slot count the search never ends exactly if no number from the base up to 2^32 has that residue |
| OtaBoot.HangExample | components/components/app_update/esp_ota_ops.c:583-587 | four slots, an active copy numbered 2^32 - 2: setting slot 3 never returns; nor with twelve slots |
| OtaBoot.NextForSpec | components/components/app_update/esp_ota_ops.c:576-590 | the next number is not below the base, less than a round above it, and names the slot |
| OtaBoot.NextForLeast | components/components/app_update/esp_ota_ops.c:576-590 | no smaller number from the base on names the slot |
| OtaBoot.SlotOfNext | components/components/app_update/esp_ota_ops.c:689-691 | reading the number back gives the slot, except for zero where the count does not divide 2^32 |
| OtaBoot.BootAfterSet | components/components/app_update/esp_ota_ops.c:552-597 | whatever number the search finds, the slot set is the one booted exactly if it is settable |
| OtaBoot.BootsHigher | components/components/app_update/esp_ota_ops.c:670-697 | a number not below the active one decides what is booted, unless it is the empty marker |
| OtaBoot.PositiveIsSettable | components/components/app_update/esp_ota_ops.c:581-596 | with valid numbers from 1 on only the empty marker is in the way |
| OtaBoot.ZeroSeqExample | components/components/app_update/esp_ota_ops.c:689-691 | three slots, a copy numbered 0: setting slot 2 boots slot 0 |
| OtaBoot.ErasedKeepsBoot | components/components/app_update/esp_ota_ops.c:526-540 | with the copy erased and not yet written the old choice stands |
| OtaBoot.RollbackIff | components/components/app_update/esp_ota_ops.c:848-900 | a rollback is possible exactly if giving up leads to an existing partition with a good image, the other copy's or the factory one |
| OtaBoot.RollbackBoots | components/components/app_update/esp_ota_ops.c:848-942 | a rollback found possible ends in an existing partition with a good image |
| OtaBoot.RollbackLeaves | components/components/app_update/esp_ota_ops.c:846-900 | giving up leads back to the same application exactly if the other copy names its slot or, without a valid one, the default is it |
| OtaBoot.SameSlotExample | components/components/app_update/esp_ota_ops.c:846-900 | two slots, copies numbered 1 and 3: the rollback returns to the application given up |
| OtaBoot.FactoryCut | components/components/app_update/esp_ota_ops.c:611-618 | a power cut between the two erases leads elsewhere exactly if the first copy was active and the second names a third partition |
| OtaBoot.FactoryCutExample | components/components/app_update/esp_ota_ops.c:611-618 | two slots: a cut on the way from slot 1 to the factory partition boots slot 0 |
| OtaBoot.OtaData.RewriteSeq | components/components/app_update/esp_ota_ops.c:526-540 | the rewritten copy counts as valid exactly for numbers below the marker and good states; a cut on the unused copy keeps the choice, on the active copy it works like giving it up |
| OtaBoot.OtaData.SetBootPartition | components/components/app_update/esp_ota_ops.c:599-640 | for every state: error cases, exactly when the search hangs, the new choice exactly for settable slots, and what a power cut leaves |
| OtaBoot.OtaData.CurrentIsWorkable | components/components/app_update/esp_ota_ops.c:904-942 | confirming keeps the choice; giving up fails exactly if there is nowhere good to go, and otherwise leads there; a power cut gives the application up in either case, and exactly when that makes no difference |
| OtaBoot.SetSlots | components/components/app_update/esp_ota_ops.c:552-597 | after any sequence of sets the last slot is booted if its set took, and with numbers from 1 on and room below the marker every set of an existing good slot takes |
| OtaTool.SwitchOtaPartition | components/components/app_update/otatool.py:89-190 | patches number and checksum of the copy that is not the base, or fails if the number needs more than 32 bits |
| OtaTool.StatesIgnored | components/components/app_update/otatool.py:94-97 | the image states do not influence what the tool does |
| OtaTool.BaseIsActive | components/components/app_update/otatool.py:131-147 | the tool starts from the copy in use exactly if its choice is not marked invalid or aborted |
| OtaTool.SameAsDevice | components/components/app_update/otatool.py:131-176 | then tool and device compute the same number and overwrite the same copy |
| OtaTool.DeviceFollows | components/components/app_update/otatool.py:94-176 | for all copies, exactly when the device boots the slot the tool was asked for: by the state of the patched copy, the number, and otherwise the base or the default |
| OtaTool.IgnoredExample | components/components/app_update/otatool.py:94-97 | two slots, an aborted copy patched: the device stays with the other slot |
| OtaReboot.SelectInPlace | components/components/bootloader_support/src/bootloader_utility.c:379-465 | the in-place bootloader step is the specified one, with the bootloader's own slot count |
| OtaReboot.CountsAgree | components/components/bootloader_support/src/bootloader_utility.c:190-197 | the bootloader counts at least as many slots as the application, and as many exactly if the table has no gap |
| OtaReboot.BootedSlot | components/components/bootloader_support/src/bootloader_utility.c:442-446 | the bootloader reads the updated slot from the number if the table has no gap or the number is no larger than the count |
| OtaReboot.FirstBoot | components/components/bootloader_support/src/bootloader_utility.c:396-452 | the first reset after an update, also the first one of a device without valid copies, boots the slot the bootloader reads from the number and puts it on trial; without gaps that is the slot updated |
| OtaReboot.ConfirmedStays | components/components/app_update/esp_ota_ops.c:914-923 | a confirmed application is booted at every later reset, from the slot the bootloader reads from the number |
| OtaReboot.UnconfirmedRollsBack | components/components/bootloader_support/src/bootloader_utility.c:396-405 | an unconfirmed one is abandoned and every later reset makes the choice made before the update, exactly but for one corrupted case without factory partition; with an active copy that is its slot |
| OtaReboot.AgreesWithApp | components/components/app_update/esp_ota_ops.c:642-697 | for all entries and tables, exactly when the application is told the partition that the bootloader chose |
| OtaReboot.DisagreeExample | components/components/bootloader_support/src/bootloader_utility.c:408-465 | a bad checksum without factory partition: the bootloader goes for the factory, the application names slot 0 |
| OtaReboot.GapExample | components/components/bootloader_support/src/bootloader_utility.c:190-197 | slots 0, 1 and 3: after the update of slot 0 the bootloader goes for slot 2, which does not exist, and the application is told slot 0 |
| OtaReboot.RollsElsewhereExample | components/components/bootloader_support/src/bootloader_utility.c:396-414 | a bad first copy, an empty second one and no factory partition: the abandoned update leads to another choice |
| OtaRuns.Perform | components/components/app_update/esp_ota_ops.c:526-640 | the calls in the order of a history have the effect of the specified steps |
| OtaRuns.ChoiceAfter | components/components/app_update/esp_ota_ops.c:526-942 | the choice after every operation, cut or not, is the one predicted, exactly unless a slot that takes effect is not settable |
| OtaRuns.ResetCutChoice | components/components/bootloader_support/src/bootloader_utility.c:396-452 | what is chosen when power is lost at any of the bootloader's writes |
| OtaRuns.RunChoice | components/components/app_update/esp_ota_ops.c:526-942 | all through a history the choice after each operation is the one predicted |
| OtaRuns.AlwaysBootsGood | components/components/app_update/esp_ota_ops.c:526-942 | over any history of sets, confirmations, give-ups, resets and power cuts, the application, and in tables without gaps the bootloader, has a good partition to boot at every point, exactly unless the test partition is set while slot 0 holds no good image |
| OtaRuns.HarmfulExample | components/components/app_update/esp_ota_ops.c:599-640 | setting the test partition on a fresh device makes a slot without a good image the one to boot |
| StaticInitGuards.StepInv | components/components/cxx/cxx_guards.cpp:57-211 | every step of every task keeps the guard invariant |
| StaticInitGuards.Safety | components/components/cxx/cxx_guards.cpp:57-211 | in every run one initialiser at most per guard, pending exactly then, ready and pending never both, the waiting count right, no assert fails |
| StaticInitGuards.OwnerFinishes | components/components/cxx/cxx_guards.cpp:170-211 | who releases or aborts finds its guard pending and not ready |
| StaticInitGuards.ReadyIff | components/components/cxx/cxx_guards.cpp:170-211 | in every run a guard is ready exactly if a release of it has been completed; an abort never makes it so |
| StaticInitGuards.AcquireMeaning | components/components/cxx/cxx_guards.cpp:114-168 | in every run an acquire waits if a task is initialising the guard, and otherwise returns 1 exactly if it has not been released |
| StaticInitGuards.AbortHandsOver | components/components/cxx/cxx_guards.cpp:192-211 | after an abort the next task to look at the guard, whenever that is, returns 1 and owns it |
| StaticInitGuards.CallsInProgress | components/components/cxx/cxx_guards.cpp:114-211 | in every run each task is where its own last call has brought it |
| StaticInitGuards.AbortExample | components/components/cxx/cxx_guards.cpp:192-211 | a waiting task takes over after an abort |
| StaticInitGuards.NoAcquireAfterReady | components/components/cxx/cxx_guards.cpp:153-168 | after a release no acquire returns 1 and nobody initialises the guard again |
| StaticInitGuards.ReadyStays | components/components/cxx/cxx_guards.cpp:170-190 | nothing ever clears ready |
| StaticInitGuards.WaitReturns | components/components/cxx/cxx_guards.cpp:57-96 | the wait is left only with the mutex held and the guard not pending, taking one off the count |
| StaticInitGuards.Deadlock | components/components/cxx/cxx_guards.cpp:57-96 | a reachable state of two tasks and two guards in which no task can take a step although a waited-for guard is ready |
| StaticInitGuards.LostWakeUp | components/components/cxx/cxx_guards.cpp:74-94 | with any two or more guards and tasks, a run leaves a task waiting for a ready guard without a token due |
| StaticInitGuards.NoLostWakeUp | components/components/cxx/cxx_guards.cpp:78-83 | with one guard a waiter always finds a token once nobody initialises the guard and signalling is over |
| StaticInitGuards.RunAlone | components/components/cxx/cxx_guards.cpp:57-96 | a task on its own waits only for a guard that is pending |
| StaticInitGuards.LostWakeUpIff | components/components/cxx/cxx_guards.cpp:74-94 | a wake-up can be lost exactly if there are two guards and two tasks at least |
| I2sQueue.LinkRing | components/components/esp_driver_i2s/i2s_common.c:517-524 | each descriptor is linked to the next and the last to the first |
| I2sQueue.RingVisitsAll | components/components/esp_driver_i2s/i2s_common.c:517-524 | following the links visits every descriptor once and comes back |
| I2sQueue.RunInv | components/components/esp_driver_i2s/i2s_common.c:603-610 | every interleaving of events keeps the channel invariant |
| I2sQueue.QueueIsArc | components/components/esp_driver_i2s/i2s_common.c:603-657 | in every run the queue is an arc of distinct buffers behind the next to be reported, without that one; buffers pass in ring order, each taken or dropped, the task on the last it took; the interrupt's send never fails |
| I2sQueue.InterruptDelivers | components/components/esp_driver_i2s/i2s_common.c:603-657 | from every state with a completion to deal with, the interrupt gets through: the oldest is dropped exactly from a full queue, and the finished buffer becomes the newest |
| I2sQueue.TaskTakesOldest | components/components/esp_driver_i2s/i2s_common.c:1319-1326 | while the channel runs a queued buffer can be taken, and it is the oldest |
| I2sQueue.DropsOnlyWhenFull | components/components/esp_driver_i2s/i2s_common.c:603-604 | the interrupt goes on to drop only from a full queue |
| I2sQueue.NothingDropped | components/components/esp_driver_i2s/i2s_common.c:603-604 | in a run in which the interrupt never finds the queue full every buffer goes to the task |
| I2sQueue.HistoryGrows | components/components/esp_driver_i2s/i2s_common.c:1259-1278 | a session's history only grows, so preloading never starts over |
| I2sQueue.LeaveInOrder | components/components/esp_driver_i2s/i2s_common.c:1319-1326 | a buffer that leaves the queue, to the task or dropped, is the next in ring order |
| I2sQueue.ArcFollowsRing | components/components/esp_driver_i2s/i2s_common.c:335-335 | queue neighbours are ring neighbours, the last one just behind the next to be reported |
| I2sQueue.DmaBufferQueued | components/components/esp_driver_i2s/i2s_common.c:603-610 | however far the hardware is ahead, the buffer the DMA is on is queued exactly if queued and unreported buffers, less whole laps, make up a lap |
| I2sQueue.DmaBufferQueuedExample | components/components/esp_driver_i2s/i2s_common.c:603-610 | a concrete run in which the buffer the DMA is on is queued |
| I2sPreload.Transmitter.Start | components/components/esp_driver_i2s/i2s_common.c:1259-1269 | the first buffer is worked on, all others are queued in order |
| I2sPreload.Transmitter.Preload | components/components/esp_driver_i2s/i2s_common.c:1271-1295 | over any calls the buffers hold the loaded bytes in order, and less than asked is loaded only when all are full |
| I2sPreload.Transmitter.QueueIsArcBeforeStart | components/components/esp_driver_i2s/i2s_common.c:1259-1278 | preloading leaves the queue an arc ending just behind the first buffer to be sent |
| DacContinuous.LoadDataIntoBuf | components/components/esp_driver_dac/dac_continuous.c:457-474 | what is played of the buffer is the loaded source bytes with the offset, in either mode |
| DacContinuous.Dac.WaitToLoad | components/components/esp_driver_dac/dac_continuous.c:547-578 | one piece of the stated size is handed over, or nothing after a timeout |
| DacContinuous.LastTwoPieces | components/components/esp_driver_dac/dac_continuous.c:558-568 | two or more buffers' worth fills a buffer; less is spread over two pieces that differ by one at most and take all of it |
| DacContinuous.Dac.Write | components/components/esp_driver_dac/dac_continuous.c:580-636 | success means every byte handed over once and in order whatever the flag was; how much is loaded before a stopped DMA starts; a clear flag is clear again; the loops end |
| DacContinuous.Dac.WriteCyclically | components/components/esp_driver_dac/dac_continuous.c:500-545 | the buffers play exactly the bytes reported as loaded; too large and empty sources are told apart |
| DacContinuous.LeftOverClosed | components/components/esp_driver_dac/dac_continuous.c:521-541 | closed form of what stays unloaded, for every size and in either mode |
| DacContinuous.CyclicFullSize | components/components/esp_driver_dac/dac_continuous.c:505-541 | below the full size nothing is left, at the full size half a buffer is |
| SplitArgv.Split | components/components/console/split_argv.c:33-112 | the in-place result is the tokenizer's on the original line: strings, offsets, count, null pointer, nothing else touched; without room for the null pointer it writes outside the array |
| SplitArgv.ResumeStep | components/components/console/split_argv.c:49-100 | one character for the state machine is one character for the tokenizer |
| SplitArgv.StringAt | components/components/console/split_argv.c:27-31 | the strings are ordered, disjoint and each followed by its NUL |
| SplitArgv.TokensNulFree | components/components/console/split_argv.c:43-46 | no argument holds a NUL |
| SplitArgv.RoundTrip | components/components/console/esp_console.h:263-285 | quoting any arguments and splitting gives them back, as many as there is room for |
| SplitArgv.SplitsAsSpelled | components/components/console/split_argv.c:33-112 | every line is split into what it spells: quoted arguments and others, known and unknown escapes, quotes inside words, any spaces, a last argument ended by the line |
| SplitArgv.EveryLineSpells | components/components/console/split_argv.c:33-112 | every line is such a spelling |
| SplitArgv.BareRoundTrip | components/components/console/esp_console.h:263-285 | non-empty arguments written without quotes, with any spaces between them, are given back |
| SplitArgv.UnknownDropped | components/components/console/split_argv.c:76-84 | a backslash before any character but space, quote and backslash is lost together with it |
| SplitArgv.QuoteAllNulFree | components/components/console/esp_console.h:263-285 | quoting NUL-free arguments gives a NUL-free line |
| EfuseTable.CheckMeaning | components/components/efuse/efuse_table_gen.py:149-162 | the verdicts mean disjointness and inclusion of bits |
| EfuseTable.CheckStructFieldName | components/components/efuse/efuse_table_gen.py:134-146 | accepts exactly the tables whose dotted fields have all their enclosing fields |
| EfuseTable.RootsMeaning | components/components/efuse/efuse_table_gen.py:134-146 | the check of the roots passes exactly if, for each dot of each name, a row of the block has what stands before it as its name |
| EfuseTable.PrefixesAre | components/components/efuse/efuse_table_gen.py:138-141 | the names built up in the loops are the beginnings of the name up to a dot, without leading dots |
| EfuseTable.UniqueMeaning | components/components/efuse/efuse_table_gen.py:116-132 | for every table, groups included, the name check means that no full name is the name, or C name of a dotted name, of two rows |
| EfuseTable.ClashesAreLoose | components/components/efuse/efuse_table_gen.py:116-132 | rows of a table that passes clash in C only if each has a dot or a group |
| EfuseTable.NoClashIff | components/components/efuse/efuse_table_gen.py:116-132 | a table that passes has distinct C names exactly if its rows with a dot or a group have |
| EfuseTable.UnflaggedClash | components/components/efuse/efuse_table_gen.py:116-132 | a verified table with two dotted fields of one C name |
| EfuseTable.GroupedClash | components/components/efuse/efuse_table_gen.py:116-132 | a verified table with a dotted field and an undotted grouped one of one C name |
| EfuseTable.TwinsPass | components/components/efuse/efuse_table_gen.py:516-523 | a verified table with two fields of two parts each under one name |
| EfuseTable.Verify | components/components/efuse/efuse_table_gen.py:148-197 | accepts exactly the tables within bounds, with unique names, rooted, and with acceptable overlaps |
| EfuseTable.CustomExample | components/components/efuse/efuse_table_gen.py:172-175 | a custom table passes without the enclosing fields, any other does not |
| EfuseTable.BlockSizesExample | components/components/efuse/efuse_table_gen.py:407-423 | 256 bits in block 0, the chip's length elsewhere |
| EfuseTable.UndottedDisjoint | components/components/efuse/efuse_table_gen.py:176-197 | undotted fields of a verified block share no bit |
| EfuseTable.OverlapIsRoot | components/components/efuse/efuse_table_gen.py:134-197 | an undotted field sharing a bit with a dotted one is its root |
| EfuseTable.FitsBlock | components/components/efuse/efuse_table_gen.py:407-423 | the undotted fields of a block fit into it together |
| EfuseTable.OverlapsMeaning | components/components/efuse/efuse_table_gen.py:176-197 | the overlap check passes exactly if undotted fields share no bit and every dotted field that shares one lies inside its enclosing fields |
| EfuseTable.NegativeStartExample | components/components/efuse/efuse_table_gen.py:375-391 | a table with a negative start bit that verifies and overfills its block |
| EfuseTable.FillBitStart | components/components/efuse/efuse_table_gen.py:75-83 | given start bits stay, missing ones follow the row above in the same block |
| EfuseTable.FilledPacked | components/components/efuse/efuse_table_gen.py:75-83 | consecutive rows of a block with open start bits are packed without gap or overlap, from bit 0 if the block begins |
| Glyphs.PrecomputeGlyph | main/display.c:122-135 | a cached pixel is set exactly if its bit is |
| Glyphs.OuterColumns | main/display.c:122-135 | the first column is the highest bit, the last one the lowest |
| Glyphs.BlitGlyph | main/display.c:153-180 | the rectangles are one per maximal vertical run, in 16-bit coordinates; where these do not overflow they cover exactly the lit pixels at twice the size and do not overlap |
| Glyphs.DrawnIsLit | main/display.c:153-180 | the points drawn are exactly the lit pixels at twice the size |
| Glyphs.RectsDisjoint | main/display.c:158-179 | no point is drawn twice |
| Glyphs.EveryRunDrawn | main/display.c:162-178 | every maximal run has its rectangle |
| ButtonScreens.TogglesBounded | main/controller.c:18-42 | by time T at most T div 200001 toggles per button, and the warning never at the loop head |
| ButtonScreens.FlagPersists | main/main.c:48-61 | for both buttons, a flag once set stays set until the loop begins a toggle for it |
| ButtonScreens.ModeCarriedOut | main/main.c:48-61 | a set mode flag has led to a toggle after seven steps of the loop, whatever else happens |
| ButtonScreens.SubCarriedOut | main/main.c:48-61 | a set submode flag gives way to mode toggles only, and is carried out within five steps of the loop for each of those and five more |
| ButtonScreens.PressCarriedOut | main/controller.c:18-42 | exactly the presses more than 200 ms after the last one let through count, and they are carried out |
| ButtonScreens.StartsInDebug | main/main.c:40-61 | from boot the static debug screen is shown until a mode toggle |
| ButtonScreens.DebugLeftByMode | main/main.c:13-59 | the static debug screen is left only by a mode toggle |
| ButtonScreens.ScreenEdges | main/main.c:13-37 | the next screen for every state: it changes exactly along the toggles' edges, each caused by its button or by the end of the warning |
| ButtonScreens.DriveKept | main/main.c:13-19 | a drive screen is left for the static debug screen only by a mode toggle |

## Left out

- AppTraceRing.Ring.Produce: positions and sizes are unbounded integers; a request so large that the 32-bit sum with the write position wraps is not modelled, because the transport bounds requests by its block or by the free space.
- MemBufs.Proto.constructor: outside the SystemView build, blocks smaller than a header, whose size limit wraps, and blocks of 64 KiB and more, for which the 16-bit parameter of the wait truncates, are not modelled.
- Filling a trace buffer after it has been swapped out, and tracing before the host connects.
- OtaWriter.Handle.Write: flash hardware failures, resumed updates, updates whose size is given beforehand, and the magic word of partition-table images are not modelled.
- OtaWriter.Handle.End: the verdict on an image is a function of the flash contents given as input; the check of partition-table images and copying from a staging to a final partition are not modelled.
- OtaWriter.StaleTailRun: cells hold what is read back, so it is about a partition without the encrypted flag while flash encryption is on; how encrypted blocks read after a partial overwrite is not modelled.
- OtaBoot.OtaData.SetBootPartition: assumes the select-entry partition exists and is two sectors long, and a partition table that holds no slot twice; secure-version checks are not modelled.
- The bootloader's search for another image when the selected one does not verify, and recovery of blank select entries.
- OtaRuns.AlwaysBootsGood: whether an image is good does not change during a history, so writing new images in between is not modelled.
- Static initialisation before the scheduler runs, and scheduling: that a task able to take a step does so.
- I2sQueue.QueueIsArc: the interrupt handler is taken to have finished when the channel is stopped, and completions are reported in order.
- The contents of DMA buffers while hardware and task race for them, after the channel has been enabled.
- DacContinuous.LoadDataIntoBuf: in 16-bit mode a source that overruns a DMA buffer of odd size is not modelled; the original writes outside the buffer there.
- DacContinuous.Dac.WriteCyclically: what follows from linking descriptor -1 after a write of no bytes, and DMA buffers of odd size in 16-bit mode, are not modelled.
- SplitArgv.Split: what an argument array of size 0 leads to beyond the write outside it is not modelled.
- Parsing of CSV text and generation of C files from the eFuse table.
- Glyphs.BlitGlyph: what the display draws for a rectangle whose 16-bit coordinates have overflowed is not modelled.
- Register access, SPI, screen layouts, TLS, the console's read loop and the other drivers of the tree: plumbing whose model would only repeat it.
