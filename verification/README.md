# Verified models of the laser driver firmware and its SDK

Dafny models of the most intricate code of the repository, and proofs of what that code keeps, computes or promises.
Each module follows one source file or one mechanism:

- `RingBuffer.dfy`, `MemBufs.dfy`: the application trace transport, a ring buffer that hands out contiguous regions
  and shrinks itself to wrap early, under a two-block protocol with a pending queue. The host and the trace hardware
  are a list of replies to swap attempts; a timeout is the end of that list. Code that changes memory in place is
  modelled by classes over arrays, each with the value it stands for (`queue`, `view`) as a ghost field.
- `Guards.dfy`: the guards of C++ static initialisation as a state machine, with a program counter for each of any
  number of tasks, one mutex, one counting semaphore and any number of guards.
- `OtaWrite.dfy`: writing a firmware image over NOR flash, where erasing sets the bits of whole sectors and writing
  only clears bits. `blank` cells were erased and not written since.
- `OtaSelect.dfy`: the two alternating boot records, their sequence numbers, the bootloader's choice, and the host
  tool that writes the same records.
- `TaskScheduler.dfy`: the work list of `idf.py`, which reorders itself and grows while it is processed.
- `TaskDuplicates.dfy`: which of several tasks of one name that list queues.
- `SplitArgv.dfy`: the console's argument splitter, which overwrites the line it reads, against a tokenizer.
- `DfuArchive.dfy`: the DFU image writer, against a reader of the newc cpio format.
- `PathSplitter.dfy`: the exhaustive search for ways to split a path list at spaces.
- `DependencyCheck.dfy`: the level-by-level check of Python requirements.
- `Debounce.dfy`: the trigger's debounce counters, against a specification over the history of samples.
- `Common.dfy`: bytes, 32-bit words, optional results.

`dafny verify dfyconfig.toml` checks everything.

## Where the code does not do what it says

The models follow the code. These differences from its comments and documentation are theorems here:

- A ring request for which `wr + size` or `rd + size` wraps around 32 bits is granted although it cannot fit
  (`RingBuffer.Produce`, `RingBuffer.Consume`). No caller within the two-block protocol can get there.
- An empty ring whose pointers stand in the middle refuses requests that its storage could hold
  (`RingBuffers.RoomIsExact`).
- The comment of the flush loop counts the data in the pending buffer. The loop looks at the block only, so pending
  packets stay when the block holds no more than the minimum (`MemBufsProto.Flush`).
- The comment in the wait loop of the guards says that the semaphore is given once for each waiter, so that everyone
  gets on. With two tasks and two guards a task that has to wait on can take the token of another, which then sleeps
  although its guard is ready. If there is no other task this is a deadlock, and no release can ever come
  (`Guards.StolenToken`). It can happen if and only if there are at least two of each
  (`Guards.StrandingNeedsTwoGuards`).
- A task that reads from the down buffer with a timeout waits for ever while the host offers data that cannot be
  taken, because the time is then not checked (`MemBufs.WaitsForEver`).
- `esp_ota_end` may write its final block to a sector that was never erased: exactly if the last write stopped at a
  sector boundary and left no more partial bytes than it found (`OtaWrite.FinalBlockErased`).
- The bytes that fill up the final block are 0 until a call has completed a block that an earlier one began, and 0xFF
  from then on; so they depend on how the image was cut into calls (`OtaHandle.Write`, `OtaHandle.Finish`).
- `esp_ota_begin` with an image size within one sector of 2^32 erases nothing (`OtaWrite.Begin`).
- Near 2^32 the search for a sequence number loops for ever, under an exact condition (`OtaSelect.SearchNeverEnds`),
  or finds a number, which then never boots the requested slot (`OtaSelect.WrapsToOtherSlot`).
- Setting the test partition as boot partition boots OTA slot 0 (`OtaSelect.SetTestBootsSlot0`). The sequence number
  UINT32_MAX is never valid, and 0 may decode to another slot (`OtaSelect.SetThenBoot`).
- The assert in `esp_ota_get_app_partition_count` fails for 16 slots and a test partition, whose subtype follows the
  last slot's (`OtaSelect.AppPartitionCount`).
- The host tool ignores and keeps the state of a record, so it may build on a record the device rejects, or write one
  that the device rejects (`OtaSelect.TwinsAgree`, `OtaSelect.HostSwitchBoots`).
- `idf.py` warns that only the first occurrence of a command is executed. That is so for every request if and only if
  none of the commands that come up needs it (`TaskDuplicates.FirstIsQueuedIff`); otherwise it may be another one
  (`TaskScheduler.LastDuplicateQueued`), or by chance the first again (`TaskScheduler.FirstDuplicateQueued`). A cycle
  of dependencies makes the scheduler loop for ever (`TaskScheduler.CycleNeverEnds`, `TaskScheduler.EndsIfNoCycle`).
- A file named `TRAILER!!!` hides the rest of a DFU archive (`DfuArchive.ArchiveRoundTrip`), and part size 0 writes
  no data at all (`DfuArchive.ChunksJoin`).
- A record of the DFU index has 64 bytes for the name and cuts longer ones silently, so it need not name its file
  (`DfuArchive.InfoRoundTrip`), and several chunks of a file may share one name, under an exact condition
  (`DfuArchive.ChunkFieldsDiffer`).
- The path splitter strips its input, so paths that start or end with a space are lost
  (`PathSplitter.LeadingSpaceIsLost`); `PathSplitter.JoinThenSplit` says when joining and splitting is the identity.
- The path splitter calls a string ambiguous if two ways to split it name the same paths, which needs a path that
  consists of spaces alone (`PathSplitter.SamePathsTwice`).
- An exception in the dependency search is reported under the name of the last direct requirement
  (`DependencyCheck.BlamesTheWrongOne`). That is right if and only if nothing else raises one
  (`DependencyCheck.ReportsAreRight`).
- `triggerDriver.c` line 109 tests `trigger_release`, which is declared nowhere; it is read as
  `trigger_release_cptr`.

## Model

| member | source | states |
|---|---|---|
| `RingBuffers.RingBuffer.constructor` | Source/SDK/components/app_trace/include/esp_app_trace_util.h:114-120 | A new ring is an empty queue at full size |
| `RingBuffers.RingBuffer.Produce` | Source/SDK/components/app_trace/app_trace_util.c:89-129 | Without 32-bit wrap-around: granted exactly up to `LargestRoom`, and then the queue grows by exactly that region, which lies in range; refused requests change nothing. With wrap-around of `wr + size`: a region that does not fit is granted |
| `RingBuffers.RoomIsExact` | Source/SDK/components/app_trace/app_trace_util.c:89-129 | What `LargestRoom` means: with queued bytes a request is granted if and only if as many free cells can come next, behind the newest byte or at the start, without reaching the oldest one; an empty ring grants only what fits on one side of its pointers, although all its cells are free |
| `RingBuffers.RingBuffer.WrapWriter` | Source/SDK/components/app_trace/app_trace_util.c:95-117 | The early wrap: granted exactly for requests up to the largest free region, the queue grows by the granted bytes; a request within the offered write size never shrinks the ring |
| `RingBuffers.RingBuffer.Consume` | Source/SDK/components/app_trace/app_trace_util.c:131-155 | Granted exactly when the read size covers the request, and then the oldest n bytes leave the queue; with wrap-around of `rd + size` it is granted and the read pointer goes backwards |
| `RingBuffers.RingBuffer.ReadSize` | Source/SDK/components/app_trace/app_trace_util.c:157-168 | 0 exactly for an empty queue, and never more than the queue holds or the storage has behind `rd` |
| `RingBuffers.RingBuffer.WriteSize` | Source/SDK/components/app_trace/app_trace_util.c:170-184 | Never more than can be produced, and 0 exactly when not one byte can be; at full size it leaves the queue within size - 1, and 0 means that limit is reached |
| `RingBuffers.TailIsPrivate` | Source/SDK/components/app_trace/app_trace_util.c:89-129 | The region handed out last shares no byte with older queued data: writing to it changes only the newest part of the queue |
| `RingBuffers.RingBuffer.Fill` | Source/SDK/components/app_trace/app_trace_util.c:89-129 | Writing into the newest region patches exactly those bytes of the queue |
| `RingBuffers.RingBuffer.Store` | Source/SDK/components/app_trace/app_trace_membufs_proto.c:210-216 | Producing within the write size and copying appends the data; the production cannot fail |
| `RingBuffers.RingBuffer.Fetch` | Source/SDK/components/app_trace/app_trace_membufs_proto.c:124-134 | Consuming within the read size returns the oldest bytes; the consumption cannot fail |
| `MemBufs.DownWrite` | Source/SDK/components/app_trace/app_trace_membufs_proto.c:194-220 | Stores the longest prefix of the host data that fits, in order, and ends; the `assert` cannot fire |
| `MemBufs.PumpBytes` | Source/SDK/components/app_trace/app_trace_membufs_proto.c:126-135 | Moving n pending bytes behind the marker keeps block followed by queue unchanged as a byte string |
| `MemBufs.Pump` | Source/SDK/components/app_trace/app_trace_membufs_proto.c:116-136 | Moves as many of the oldest pending bytes as the block holds, in order; the `assert` cannot fire |
| `MemBufs.ReceiveHostData` | Source/SDK/components/app_trace/app_trace_membufs_proto.c:97-115 | The down queue grows by the longest prefix of the host data that leaves one byte of it free, and by nothing if the host has placed no data; then the length in the block is cleared |
| `MemBufs.SwapKeepsUp` | Source/SDK/components/app_trace/app_trace_membufs_proto.c:80-140 | A granted swap neither loses, duplicates nor reorders a byte of shipped, block and pending data, keeps the marker in the block, and what the host can read afterwards is what was shipped last |
| `MemBufs.SwapEffect` | Source/SDK/components/app_trace/app_trace_membufs_proto.c:80-140 | A granted swap exposes the old block, fills the other one with pending packets until it is full or none is left, and adds to the down buffer the prefix of the host data that fits, and nothing else |
| `MemBufs.RunConservesUp` | Source/SDK/components/app_trace/app_trace_membufs_proto.c:80-348 | Over every run of swaps, completed packets and reads: shipped bytes, block up to its marker and pending queue are all packets sent, in order, and the host has seen a prefix |
| `MemBufs.RunConservesDown` | Source/SDK/components/app_trace/app_trace_membufs_proto.c:97-220 | Over every run: the bytes read, then what the down buffer holds, are what it held and then, for each granted swap in order, the prefix of its host data that fitted |
| `MemBufs.LeadsConserves` | Source/SDK/components/app_trace/app_trace_membufs_proto.c:80-348 | Whatever calls lead from one view to another, the host only sees more, and it sees a prefix of what was sent; what was read and what is left to read is what was there and the host data that found room, in order |
| `MemBufs.Session` | Source/SDK/components/app_trace/app_trace_membufs_proto.c:80-372 | For every sequence of write, flush and read calls and every behaviour of host and hardware: the calls together are one run, with exactly the granted swaps of the replies used. The host reads from its packets just core and data of the successful writes, in order, and has seen a prefix of them, which only grows; the bytes that the reads return, then the down buffer, are what was there and the host data that found room, in order |
| `MemBufs.OnePacket` | Source/SDK/components/app_trace/app_trace_membufs_proto.c:262-274 | A closed packet reads as its core, its size and its data |
| `MemBufs.OpenIsIncomplete` | Source/SDK/components/app_trace/app_trace_membufs_proto.c:262-267 | A packet that is open, with anything behind it, reads as an incomplete one, as its two sizes differ |
| `MemBufs.PacketsJoin` | Source/SDK/components/app_trace/app_trace_membufs_proto.c:262-274 | Packets one after the other read as the packets of both parts |
| `MemBufs.MemBufsProto.ConfigDown` | Source/SDK/components/app_trace/app_trace_membufs_proto.c:74-77 | A new, empty down buffer, and nothing else changes |
| `MemBufs.MemBufsProto.constructor` | Source/SDK/components/app_trace/app_trace_membufs_proto.c:56-72 | Two empty blocks, an empty pending ring and a disabled down buffer |
| `MemBufs.MemBufsProto.Swap` | Source/SDK/components/app_trace/app_trace_membufs_proto.c:80-140 | A refused swap changes nothing. A granted one exposes the old block up to its marker, fills the other from the pending ring, and appends to the down buffer the prefix of the host data that leaves a byte free; without host data the down buffer stays |
| `MemBufs.MemBufsProto.SwapWait` | Source/SDK/components/app_trace/app_trace_membufs_proto.c:142-153 | Swaps at the first grant before the time is up, or else changes nothing |
| `MemBufs.Swaps` | Source/SDK/components/app_trace/app_trace_membufs_proto.c:142-153 | Any attempts to swap keep the stream, and refused ones keep everything |
| `MemBufs.MemBufsProto.ForceFlush` | Source/SDK/components/app_trace/app_trace_membufs_proto.c:170-176 | What arrives is what fits of the host data of the first granted swap, and nothing without one; nothing else changes than by that swap |
| `MemBufs.MemBufsProto.Flush` | Source/SDK/components/app_trace/app_trace_membufs_proto.c:350-372 | Ends for every behaviour of the host, does exactly the swaps granted until it ends, keeps the stream, and fails only when the time is up. Success after a swap leaves at most `min_sz` bytes in the block; nothing stays pending if `min_sz` is below both block sizes, and otherwise exactly one swap is made and nothing stays pending exactly if it fits the other block. With no more than `min_sz` in the block it does nothing, whatever is pending |
| `MemBufs.MemBufsProto.Wait4Buf` | Source/SDK/components/app_trace/app_trace_membufs_proto.c:222-259 | The allocation follows exactly the swaps granted by the replies used; it is the newest n bytes and private, in the block exactly if nothing is pending and there is room; it fails only when the time is up or for lack of room in the pending ring |
| `MemBufs.MemBufsProto.AllocInBlock` | Source/SDK/components/app_trace/app_trace_membufs_proto.c:325-329 | The region starts at the old marker, and the marker moves behind it |
| `MemBufs.MemBufsProto.AllocPended` | Source/SDK/components/app_trace/app_trace_membufs_proto.c:292-296 | Fails exactly without a free region in the pending ring; otherwise the region is last in the pending queue |
| `MemBufs.MemBufsProto.Allocate` | Source/SDK/components/app_trace/app_trace_membufs_proto.c:285-331 | The allocation follows exactly the swaps granted by the replies used; it comes from the block exactly if then nothing is pending and there is room, and at once if that holds from the start; it fails only as `Wait4Buf` does |
| `MemBufs.MemBufsProto.UpBufferGet` | Source/SDK/components/app_trace/app_trace_membufs_proto.c:276-337 | A request beyond the block is refused without effect; a granted packet is opened at the end of the stream, after exactly the swaps granted by the replies used |
| `MemBufs.MemBufsProto.FillPacket` | Source/SDK/components/app_trace/app_trace_membufs_proto.c:339-348 | Writing to an allocated packet changes only the newest n bytes of the stream, and never the block that the host reads |
| `MemBufs.MemBufsProto.UpBufferPut` | Source/SDK/components/app_trace/app_trace_membufs_proto.c:339-348 | Copies the block size of the packet to its written size and changes nothing else in the stream |
| `MemBufs.MemBufsProto.Write` | Source/SDK/components/app_trace/app_trace.c:264-301 | A run of the transport that sends exactly one complete packet, or nothing, with exactly the swaps granted by the replies used; nothing is sent only for empty or too long data, no swap in time or no room in the pending ring |
| `MemBufs.MemBufsProto.DownBufferGet` | Source/SDK/components/app_trace/app_trace_membufs_proto.c:155-186 | A run of swaps and one read; it returns the oldest host bytes, up to the size asked for, and what it returned and what is left are what was there and what arrived. An empty buffer gets what fits of the data of the first poll that ends the wait. It returns nothing exactly if the time is up at a poll without host data before any poll brings a byte, and waits on exactly if no poll decides |
| `MemBufs.DecidesExactly` | Source/SDK/components/app_trace/app_trace_membufs_proto.c:155-186 | A poll ends the wait exactly if the host has none and the time is up, or if the first granted swap comes with data and the down buffer has room for a byte |
| `MemBufs.WaitsForEver` | Source/SDK/components/app_trace/app_trace_membufs_proto.c:169-184 | While the host offers data and no swap is granted, or the down buffer is disabled, no number of polls ends the wait: the timeout is not checked |
| `Guards.NextInv` | Source/SDK/components/cxx/cxx_guards.cpp:113-211 | Every atomic step of every task keeps mutual exclusion, one owner per pending guard, ready and pending exclusive, the waiting count, and a token for every sleeper unless an awaited guard is pending; ready guards stay ready |
| `Guards.NextCount` | Source/SDK/components/cxx/cxx_guards.cpp:66-96 | The waiting count stays the number of tasks between its increment and its decrement |
| `Guards.NextToken` | Source/SDK/components/cxx/cxx_guards.cpp:74-111 | No step leaves a sleeper without a token while no awaited guard is pending |
| `Guards.ReachableIsSafe` | Source/SDK/components/cxx/cxx_guards.cpp:113-211 | In every reachable state, for any tasks, guards and interleaving: at most one task initialises a guard, a guard is pending exactly while owned, ready and pending exclude each other, the waiting count is exact, `acquire` returns 1 to the owner and 0 only for a ready guard, and the asserts of release and abort hold |
| `Guards.CompletesOnce` | Source/SDK/components/cxx/cxx_guards.cpp:170-190 | Over every run a guard completes at most once and never loses `ready` |
| `Guards.NobodyStranded` | Source/SDK/components/cxx/cxx_guards.cpp:66-111 | In every reachable state in which no awaited guard is pending there is a token, given or about to be, for every sleeping task, and each woken task leaves the loop |
| `Guards.StolenToken` | Source/SDK/components/cxx/cxx_guards.cpp:66-111 | For any two tasks and two guards, however many more there are: a reachable state in which the first sleeps for a ready guard and no token comes; with no other task, nobody can ever move again |
| `Guards.StrandingNeedsTwoGuards` | Source/SDK/components/cxx/cxx_guards.cpp:66-211 | A task can be left sleeping for a ready guard if and only if there are at least two tasks and at least two guards, aborts included |
| `Guards.Releases` | Source/SDK/components/cxx/cxx_guards.cpp:170-190 | Signalling gives as many tokens as there are waiters, whichever guard they wait for |
| `Guards.Aborts` | Source/SDK/components/cxx/cxx_guards.cpp:192-211 | From an idle owner with the mutex free, an abort leads to the state in which the guard is neither pending nor owned, nor made ready, and there is one more token for each waiter |
| `Guards.WakesToOwn` | Source/SDK/components/cxx/cxx_guards.cpp:66-168 | A sleeper that takes a token when its guard is neither pending nor ready leaves the wait loop and owns the guard, which is pending again |
| `Guards.WakesToReady` | Source/SDK/components/cxx/cxx_guards.cpp:66-168 | A sleeper that takes a token when its guard is ready leaves the wait loop and returns without owning it |
| `Guards.AbortHandsOver` | Source/SDK/components/cxx/cxx_guards.cpp:66-211 | In every reachable state in which the mutex is free: after the owner aborts, any task that sleeps for the guard can become its owner, and the first one is not |
| `Guards.FinishEffect` | Source/SDK/components/cxx/cxx_guards.cpp:179-203 | In every interleaving the step that ends an initialisation clears pending and the ownership, makes the guard ready exactly for a release, and lets one token be given for each waiter |
| `Guards.FindsReady` | Source/SDK/components/cxx/cxx_guards.cpp:150-168 | Acquiring a ready guard returns 0 and changes nothing |
| `Guards.NextRelease` | Source/SDK/components/cxx/cxx_guards.cpp:179-185 | At the release of the only guard everyone in the wait loop is asleep, so the loop gives one token each |
| `Guards.SingleGuard` | Source/SDK/components/cxx/cxx_guards.cpp:66-111 | One guard, never aborted, once ready: tokens plus gives still to be made equal the sleeping tasks, and every woken task leaves |
| `OtaWrite.WriteIsCovered` | Source/SDK/components/app_update/esp_ota_ops.c:193-207 | Although the erased range ignores the partial bytes, it covers all the call writes and ends no later than the sector of the next write |
| `OtaWrite.EraseRangeFits` | Source/SDK/components/app_update/esp_ota_ops.c:195-203 | The erased range is whole sectors from the first boundary at or behind `wrote_size` to the end of the last affected one |
| `OtaWrite.FinalBlockErased` | Source/SDK/components/app_update/esp_ota_ops.c:336-344 | The block that `esp_ota_end` will write is erased exactly if the last call stopped inside a sector or left more partial bytes than it found |
| `OtaWrite.Flash.Erase` | Source/SDK/components/esp_partition/partition_target.c:123-144 | Erases exactly the range, or refuses a range that is not whole sectors of the partition |
| `OtaWrite.Flash.Program` | Source/SDK/components/esp_partition/partition_target.c:63-89 | Clears bits in exactly the range, or refuses a range beyond the partition |
| `OtaWrite.OtaHandle.EraseAhead` | Source/SDK/components/app_update/esp_ota_ops.c:193-207 | All cells up to the end of the last affected sector are blank afterwards; nothing written is lost |
| `OtaWrite.OtaHandle.AddToBlock` | Source/SDK/components/app_update/esp_ota_ops.c:219-233 | A block is written to blank cells when complete, and buffered until then; 0xFF bytes replace a block that was written |
| `OtaWrite.OtaHandle.TopUp` | Source/SDK/components/app_update/esp_ota_ops.c:218-236 | The head of the data completes the buffered block or is buffered whole, without moving the end of the write |
| `OtaWrite.OtaHandle.PutBlocks` | Source/SDK/components/app_update/esp_ota_ops.c:238-250 | Whole blocks reach flash and the tail is buffered, in order |
| `OtaWrite.OtaHandle.Store` | Source/SDK/components/app_update/esp_ota_ops.c:214-250 | Flash and buffer grow by exactly the data |
| `OtaWrite.OtaHandle.Write` | Source/SDK/components/app_update/esp_ota_ops.c:174-257 | Successful calls append the data to flash and buffer, and write only cells erased for this handle and not written since; no call destroys written data; every error in the order of the checks, with the condition for it; when the final block will be blank; and what it will be filled up with, 0xFF exactly if some call has completed a block that an earlier one began |
| `OtaWrite.OtaHandle.ChunkingDoesNotMatter` | Source/SDK/components/app_update/esp_ota_ops.c:209-250 | Flash up to `wrote_size` and then the partial bytes are the chunks joined; the length alone decides what is buffered |
| `OtaWrite.OtaHandle.Finish` | Source/SDK/components/app_update/esp_ota_ops.c:319-345 | Every outcome of the flush: a handle with nothing in flash is refused, a final block beyond the partition fails, and otherwise the image is a prefix of the flash with fewer than 16 bytes behind it, all 0 or all 0xFF, if the final block was blank |
| `OtaWrite.Begin` | Source/SDK/components/app_update/esp_ota_ops.c:114-172 | Erases what the image needs, or leaves it to the writes, and fails exactly if that is not within the partition; a size within a sector of 2^32 wraps and erases nothing |
| `OtaSelect.Active` | Source/SDK/components/bootloader_support/src/bootloader_common_loader.c:39-58 | The active record is a valid one of greatest sequence, or none is valid |
| `OtaSelect.BootWithoutRecord` | Source/SDK/components/app_update/esp_ota_ops.c:480-538 | Without a valid record or without slots boot takes the factory partition, or else the first OTA slot there is, or else the test partition, or nothing |
| `OtaSelect.AppPartitionCount` | Source/SDK/components/app_update/esp_ota_ops.c:380-388 | Counts the slots without gap; the assert fails exactly if all 16 slots and the test partition exist |
| `OtaSelect.NextSeqIsNext` | Source/SDK/components/app_update/esp_ota_ops.c:420-428 | The closed form is the least number from the active one on that is congruent to slot + 1 |
| `OtaSelect.FindNextSeq` | Source/SDK/components/app_update/otatool.py:154-162 | The host tool's loop, on unbounded integers, ends at that number |
| `OtaSelect.Search` | Source/SDK/components/app_update/esp_ota_ops.c:421-425 | The 32-bit loop: it never returns exactly if the active number is beyond the last value of its class, U32 - g + (slot + 1) % n % g; otherwise it stops at the first value that reaches the active number, which is the least congruent number as long as 32 bits do not overflow |
| `OtaSelect.SearchPeriod` | Source/SDK/components/app_update/esp_ota_ops.c:422-425 | The index wraps around too, so the loop runs through one period of values for ever |
| `OtaSelect.WrapsToOtherSlot` | Source/SDK/components/app_update/esp_ota_ops.c:421-428 | If 32 bits overflow and the search ends, the number found never decodes to the requested slot |
| `OtaSelect.WrapHappens` | Source/SDK/components/app_update/esp_ota_ops.c:421-428 | It does happen: of 7 slots with active number 0xFFFFFFFB, asking for slot 3 writes a number that boots slot 6 |
| `OtaSelect.ChosenBoots` | Source/SDK/components/app_update/esp_ota_ops.c:419-434 | Overflow or not, boot selects the slot that the number written decodes to, or stays as it was for UINT32_MAX |
| `OtaSelect.SearchNeverEnds` | Source/SDK/components/app_update/esp_ota_ops.c:421-425 | For every number of slots: no value reaches the active number if and only if that is beyond U32 - g + (slot + 1) % n % g, with g the greatest common divisor of n and 2^32 |
| `OtaSelect.SearchValues` | Source/SDK/components/app_update/esp_ota_ops.c:421-425 | The loop runs through exactly the values congruent to slot + 1 modulo n, modulo g |
| `OtaSelect.StrideIsGcd` | Source/SDK/components/app_update/esp_ota_ops.c:421-425 | g divides both numbers, and every common divisor divides g |
| `OtaSelect.BootConfig.RewriteOtaSeq` | Source/SDK/components/app_update/esp_ota_ops.c:364-378 | Erases one record, then writes a valid one in its place, and never touches the other |
| `OtaSelect.BootConfig.RewriteOtaData` | Source/SDK/components/app_update/esp_ota_ops.c:390-435 | Every outcome for subtype 0x10 + x, and for the test partition as slot 0: refused exactly if x is not below n, endless exactly as `Search` says; otherwise the record that is not active is replaced by one with a valid CRC, state NEW with rollback and UNDEFINED without, and number x + 1, or the number found for x, and boot selects ota_x exactly if that is bootable |
| `OtaSelect.FindsOne` | Source/SDK/components/app_update/esp_ota_ops.c:421-428 | What the search finds is unique; without overflow it is the least congruent number |
| `OtaSelect.BootConfig.SetBootPartition` | Source/SDK/components/app_update/esp_ota_ops.c:437-478 | Every outcome in the order of the checks; after setting factory boot selects factory; after setting 0x10 + x, or the test partition for x = 0, the outcome is that of `RewriteOtaData`, and boot selects ota_x if and only if its next number, without wrapping, is bootable; refusals change nothing |
| `OtaSelect.TargetSlot` | Source/SDK/components/app_update/esp_ota_ops.c:420-428 | The next number selects the slot it was computed for, and a greater one is used only to change slots |
| `OtaSelect.SetThenBoot` | Source/SDK/components/app_update/esp_ota_ops.c:390-435 | For every number the search finds, overflow or not: boot selects x if and only if the next number without wrapping is below UINT32_MAX and not a 0 that decodes to another slot |
| `OtaSelect.SetTestBootsSlot0` | Source/SDK/components/app_update/esp_ota_ops.c:399-428 | Setting the test partition boots slot 0, exactly when setting slot 0 would |
| `OtaSelect.SwitchSurvivesPowerLoss` | Source/SDK/components/app_update/esp_ota_ops.c:364-378 | Stopped before the erase, after it, in the middle of the write or after it: a valid record remains, and boot selects the old slot or the one the number decodes to, which is the new one unless 32 bits overflow |
| `OtaSelect.TwinsAgree` | Source/SDK/components/app_update/otatool.py:131-164 | Host and device start from the same record if and only if the one the host takes is not marked invalid or aborted, and then compute the same sector and number |
| `OtaSelect.HostSwitchBoots` | Source/SDK/components/app_update/otatool.py:131-188 | For all records: what the host writes boots slot x if and only if its number is bootable, provided the record it overwrites was not marked invalid or aborted; otherwise boot follows the record the host started from |
| `OtaSelect.SwitchOtaPartition` | Source/SDK/components/app_update/otatool.py:89-190 | Fails exactly for a missing slot or a number beyond 32 bits; otherwise replaces sequence and CRC of one record |
| `TaskScheduler.PullLoop` | Source/SDK/tools/idf.py:592-619 | The inner loops compute `PullAll`, and report whether anything was pulled |
| `TaskScheduler.PullAllFacts` | Source/SDK/tools/idf.py:592-619 | They keep every object once, add only names of missing dependencies, and bring one of the pulled names to the front |
| `TaskScheduler.RoundPulls` | Source/SDK/tools/idf.py:586-619 | A round that pulls adds exactly the missing names and keeps the queue |
| `TaskScheduler.RoundPops` | Source/SDK/tools/idf.py:621-627 | A round that pulls nothing moves the front name to the queue and loses no name |
| `TaskScheduler.RoundDecreases` | Source/SDK/tools/idf.py:586-627 | Each round makes an unseen command seen, or shortens the list, or lowers the rank of the front task |
| `TaskScheduler.RoundKeeps` | Source/SDK/tools/idf.py:586-627 | Each round keeps the queue ordered and every requested name seen, and adds no name beyond the dependency closure |
| `TaskScheduler.ExecuteTasks` | Source/SDK/tools/idf.py:584-627 | Without a cycle among the requested commands and those they depend on the loop ends; each command is queued once, behind its dependencies and its requested order dependencies; the queue is exactly the requested commands and their dependency closure, and only commands that were not requested get new tasks. Commands none of these needs are queued as first given, and in the order given; without any dependency the queue is the first occurrences in order |
| `TaskScheduler.RoundsKeepOrder` | Source/SDK/tools/idf.py:586-627 | Of two names nobody needs, whose first tasks stand in some order, these are queued in that order, however many rounds it takes |
| `TaskScheduler.IndependentRun` | Source/SDK/tools/idf.py:586-627 | If no command that comes up depends on another, the queue is the first occurrence of each, in the order given |
| `TaskScheduler.RoundFromRequest` | Source/SDK/tools/idf.py:597-619 | A round makes new tasks only for names that were not requested |
| `TaskScheduler.LastPulledInFront` | Source/SDK/tools/idf.py:592-619 | After an inner loop the last of the names it pulled is in front, as the last task of that name or as a new one |
| `TaskScheduler.NextInFront` | Source/SDK/tools/idf.py:592-619 | Which task a round that pulls leaves in front: that of the last order dependency missed, or else of the last dependency missed |
| `TaskScheduler.TrapStays` | Source/SDK/tools/idf.py:586-627 | A set of unqueued names each of which needs one of the set stays unqueued, and one of them stays in the list |
| `TaskScheduler.EndsIfNoCycle` | Source/SDK/tools/idf.py:586-627 | For every request, whatever it leaves to be added: the loop ends if and only if no cycle of dependencies and requested order dependencies runs through the requested commands and those they depend on, provided that order dependencies on commands that come up are on requested ones or dependencies as well |
| `TaskScheduler.CycleNeverEnds` | Source/SDK/tools/idf.py:586-627 | For every request and without that proviso: with such a cycle the loop never ends |
| `TaskScheduler.CycleTraps` | Source/SDK/tools/idf.py:586-627 | The commands from which the cycle can be reached are a trap, and some requested command is among them |
| `TaskScheduler.TrapNeverEnds` | Source/SDK/tools/idf.py:586-627 | For any request: with a set of unqueued names that each need one of the set, one of them in the list, the list is never empty, however many rounds go by |
| `TaskScheduler.RankedEnds` | Source/SDK/tools/idf.py:586-627 | For any request: without a cycle among the names that can come up, some number of rounds empties the list |
| `TaskScheduler.SinklessHasCycle` | Source/SDK/tools/idf.py:586-627 | A set of names that each need one of the set contains a cycle |
| `TaskScheduler.RankOf` | Source/SDK/tools/idf.py:586-627 | Without such a set all names can be ranked |
| `TaskScheduler.RoundKeepsFirst` | Source/SDK/tools/idf.py:586-627 | The first task of a name that nobody needs stays the first in the list until it is queued |
| `TaskScheduler.LastDuplicateQueued` | Source/SDK/tools/idf.py:540-549 | Against the warning: of two tasks of one name that another task depends on, the last is queued |
| `TaskScheduler.FirstDuplicateQueued` | Source/SDK/tools/idf.py:540-549 | With a second task that depends on it, the first of the two is queued after all |
| `TaskDuplicates.FirstIsQueuedIff` | Source/SDK/tools/idf.py:540-627 | Exactly when the warning is right: the first task of a name is queued for every request of these commands, in any order and any number, if and only if none of the commands requested, and of those they depend on, needs the name |
| `TaskDuplicates.NeededNotFirst` | Source/SDK/tools/idf.py:586-627 | If some command needs the name, a request that names it often enough after the others queues another one than the first |
| `TaskDuplicates.RoundOf` | Source/SDK/tools/idf.py:586-627 | While none of a name is queued, a round queues the first of them, or turns their order by one, or leaves it |
| `TaskDuplicates.PotentialFalls` | Source/SDK/tools/idf.py:586-627 | The rounds before that are bounded independently of how many tasks of the name there are |
| `SplitArgv.Switch` | Source/SDK/components/console/split_argv.c:49-95 | The switch statement takes the step of the tokenizer, and outputs a NUL exactly at the end of an argument |
| `SplitArgv.AtLastOpen` | Source/SDK/components/console/split_argv.c:102-111 | An argument that is still open at the end is terminated and counted, and argv ends with NULL |
| `SplitArgv.Split` | Source/SDK/components/console/split_argv.c:33-112 | For every NUL-terminated line: the result is the tokens of the text, packed in place as terminated segments that argv points at, then NULL; nothing behind the text is touched |
| `SplitArgv.PackedSegment` | Source/SDK/components/console/split_argv.c:96-109 | Packed arguments are ordered, disjoint, terminated segments |
| `SplitArgv.TokensNoNul` | Source/SDK/components/console/split_argv.c:42-46 | No argument contains a NUL, so its terminator ends it |
| `SplitArgv.RoomTruncates` | Source/SDK/components/console/esp_console.h:278-283 | A smaller argv holds the first arguments of what a larger one would |
| `SplitArgv.QuotedArgument` | Source/SDK/components/console/esp_console.h:269-276 | Escaping backslash and quote inside quotes gives the argument back |
| `SplitArgv.QuoteThenSplit` | Source/SDK/components/console/esp_console.h:269-279 | Quoting any list of arguments that argv has room for and reading the tokens of the line gives the list back |
| `SplitArgv.SplitQuoted` | Source/SDK/components/console/split_argv.c:33-112 | In memory: splitting the line that quotes any NUL-free arguments that argv has room for leaves each argument at its pointer, followed by a NUL, and NULL behind the last one |
| `SplitArgv.SpelledLine` | Source/SDK/components/console/esp_console.h:269-279 | However arguments are spelled, in quotes or with escapes, with any spaces around them, the tokens of the line are the arguments; an unrecognised escape stands for nothing, and a missing closing quote or a lone backslash at the end of the line does no harm |
| `SplitArgv.EveryLine` | Source/SDK/components/console/split_argv.c:42-112 | Every line whatever is such a spelling, so this says what the splitter makes of each of them: the arguments spelled, as many as argv has room for |
| `SplitArgv.SplitSpelled` | Source/SDK/components/console/split_argv.c:33-112 | In memory: splitting a line that spells arguments in any such way leaves each at its pointer, followed by a NUL |
| `SplitArgv.WordsRead` | Source/SDK/components/console/split_argv.c:49-95 | The arguments of a line are read one after the other, each to the value of its spelling |
| `SplitArgv.QuotedNoNul` | Source/SDK/components/console/split_argv.c:42-46 | The line that quotes NUL-free arguments is NUL-free |
| `DfuArchive.HexFieldParse` | Source/SDK/tools/mkdfu.py:63-64 | A fixed-width hexadecimal field decodes to the number if and only if the number is below 2^32 |
| `DfuArchive.PadBytes` | Source/SDK/tools/mkdfu.py:128-131 | The bytes come first and the length is the next multiple |
| `DfuArchive.PaddingIsZero` | Source/SDK/tools/mkdfu.py:128-131 | What is added are zero bytes |
| `DfuArchive.HeaderRead` | Source/SDK/tools/mkdfu.py:58-83 | All 13 numbers of a header are read back: mode 0100644 for files, one link for the trailer, the two sizes, and 0 for everything else |
| `DfuArchive.EntryRoundTrip` | Source/SDK/tools/mkdfu.py:232-243 | A newc reader recovers name and data of an entry, and its length, whatever follows |
| `DfuArchive.ArchiveRoundTrip` | Source/SDK/tools/mkdfu.py:195-207 | A newc reader recovers every entry in order up to the trailer; an entry named like the trailer hides itself and all behind it |
| `DfuArchive.InfoRoundTrip` | Source/SDK/tools/mkdfu.py:87-90 | Address, flags and digest of every record are read back; the name is, if and only if it has at most 64 bytes and no trailing NUL |
| `DfuArchive.ChunkNameFits` | Source/SDK/tools/mkdfu.py:190-192 | The record of a later chunk gives its name back if and only if file name, dot and number have at most 64 bytes |
| `DfuArchive.ChunkFieldsDiffer` | Source/SDK/tools/mkdfu.py:87-90 | Exactly when the records of the first n chunks of a file have n different names: n is at most 1, or the name of the last one fits 64 bytes, or the file name has 63 bytes and n is 2 |
| `DfuArchive.LongNamesCollide` | Source/SDK/tools/mkdfu.py:87-90 | With a file name of 64 bytes or more the records of all chunks carry the same name |
| `DfuArchive.CutFieldsCollide` | Source/SDK/tools/mkdfu.py:190-192 | If the number of a chunk is cut, an earlier chunk has the same name |
| `DfuArchive.IndexRecord` | Source/SDK/tools/mkdfu.py:197-199 | Record k of the index stands at byte 88 k |
| `DfuArchive.ChunksJoin` | Source/SDK/tools/mkdfu.py:190-193 | The chunks joined are the file, except for part size 0, which reads nothing |
| `DfuArchive.ChunkSizes` | Source/SDK/tools/mkdfu.py:188-190 | All chunks but the last have exactly the part size, the last has at least one byte, reading with -1 gives at most one chunk, and there is none exactly for an empty file or part size 0 |
| `DfuArchive.ChunkNameRead` | Source/SDK/tools/mkdfu.py:190-191 | The first chunk has the name of the file, and chunk k that name, a dot and a decimal number that reads as k |
| `DfuArchive.ChunkAddress` | Source/SDK/tools/mkdfu.py:186-193 | Each chunk is flashed where the chunks before it end |
| `DfuArchive.ChunkPlace` | Source/SDK/tools/mkdfu.py:176-193 | Each chunk is the part of the file that belongs at the address of its record |
| `DfuArchive.FlashedChunks` | Source/SDK/tools/mkdfu.py:180-193 | Flashing the chunks of a file one by one, each at its address, flashes the file |
| `DfuArchive.FlashedImage` | Source/SDK/tools/mkdfu.py:246-254 | Flashing all records of an image writes every input file at its address, later ones over earlier ones, unless the part size is 0 |
| `DfuArchive.ActionWrite` | Source/SDK/tools/mkdfu.py:246-253 | For part sizes from -1 on, or without inputs: writes nothing exactly if an address or the product number does not fit; otherwise an image that, if all sizes fit the headers and no file is named like the trailer, reads back as the parameter file and the chunks of all inputs, in order |
| `DfuArchive.AddInputs` | Source/SDK/tools/mkdfu.py:250-252 | The loop adds the chunks of every input in order; it fails exactly for a part size below -1 and at least one input |
| `DfuArchive.SuffixIsFramed` | Source/SDK/tools/mkdfu.py:204-212 | The output is the archive, fewer than 10240 zero bytes up to a whole block, the suffix with product, vendor 0x303A, DFU 1.0, its signature and length, and the complement of the CRC of all before it |
| `DfuArchive.ImageRoundTrip` | Source/SDK/tools/mkdfu.py:195-215 | From the output a reader recovers the index file first and then every file exactly; record i holds the digest of file i, and its name if and only if that fits 64 bytes; sizes, suffix and checksum are right |
| `DfuArchive.EspDfuWriter.AddCpioEntry` | Source/SDK/tools/mkdfu.py:232-243 | Appends the entry, or puts it in front |
| `DfuArchive.EspDfuWriter.AddCpioFlashEntry` | Source/SDK/tools/mkdfu.py:217-230 | One more file and one more record for it; records and entries keep describing the same files |
| `DfuArchive.EspDfuWriter.AddChunks` | Source/SDK/tools/mkdfu.py:189-193 | The loop adds exactly the chunks and their records |
| `DfuArchive.EspDfuWriter.AddFile` | Source/SDK/tools/mkdfu.py:176-193 | Fails exactly for a part size below -1 |
| `DfuArchive.EspDfuWriter.AddFlashParamsFile` | Source/SDK/tools/mkdfu.py:153-174 | Adds the 32-byte parameter file with flags 28 at address 0 |
| `DfuArchive.FlashParamsRead` | Source/SDK/tools/mkdfu.py:161-171 | The words of the parameter file read as 0, 0, 0, the chip size, 65536, 4096, 256 and 65535 |
| `DfuArchive.EspDfuWriter.Finish` | Source/SDK/tools/mkdfu.py:195-215 | Writes nothing if an address or the product number does not fit; otherwise an image that can be read back, if all sizes fit the headers and no file is named like the trailer |
| `PathSplitter.SelectJoin` | Source/SDK/tools/split_paths_by_spaces.py:184-211 | The loop computes the recursive `SelectiveJoin` |
| `PathSplitter.BitSplits` | Source/SDK/tools/split_paths_by_spaces.py:184-199 | What a bit of the number means: string i + 1 starts a new part if bit i is set, and is joined to string i with a space if not |
| `PathSplitter.SelectionJoins` | Source/SDK/tools/split_paths_by_spaces.py:184-199 | Every selection joins to the input |
| `PathSplitter.SelectionsDiffer` | Source/SDK/tools/split_paths_by_spaces.py:141-146 | Different numbers below 2^N select different lists |
| `PathSplitter.Selected` | Source/SDK/tools/split_paths_by_spaces.py:141-146 | Every list of strings that joins to the input is selected by some number below 2^N |
| `PathSplitter.SelectionIsOneToOne` | Source/SDK/tools/split_paths_by_spaces.py:141-151 | Numbers below 2^N and lists that join to the input correspond one to one |
| `PathSplitter.CountedWays` | Source/SDK/tools/split_paths_by_spaces.py:150-180 | One valid number means one valid list, none means none, more mean at least two different ones |
| `PathSplitter.SplitPathsBySpaces` | Source/SDK/tools/split_paths_by_spaces.py:120-181 | No space: the input itself. Otherwise the input is trimmed of exactly the spaces at its ends, and there is a result exactly if one and only one list that joins to the trimmed input has all its non-empty strings existing; an error for none or several, which lists them |
| `PathSplitter.StripIs` | Source/SDK/tools/split_paths_by_spaces.py:129-139 | Stripping leaves the part between the first and the last character that is no space |
| `PathSplitter.PlainPaths` | Source/SDK/tools/split_paths_by_spaces.py:120-181 | If no existing path contains a space, the answer is the words if all exist, and never ambiguous |
| `PathSplitter.JoinThenSplit` | Source/SDK/tools/split_paths_by_spaces.py:120-181 | Joining existing paths and splitting the string gives them back if and only if it has no space, or it neither starts nor ends with one and no other list that joins to it is valid |
| `PathSplitter.LeadingSpaceIsLost` | Source/SDK/tools/split_paths_by_spaces.py:129-139 | If only the paths " a" and "b" exist, that list is the only one that joins to their string, and yet there is no answer |
| `PathSplitter.SamePathsTwice` | Source/SDK/tools/split_paths_by_spaces.py:152-180 | For every string: two ways name the same paths if and only if some way has an empty string next to a path that consists of spaces alone |
| `PathSplitter.SamePathsPossible` | Source/SDK/tools/split_paths_by_spaces.py:152-180 | Over all trimmed strings that can happen if and only if some existing path consists of spaces alone, and there are paths that do not start and that do not end with a space |
| `PathSplitter.AnswerIsAboutPaths` | Source/SDK/tools/split_paths_by_spaces.py:152-180 | While no existing path consists of spaces alone, a result is the only possible list of paths, and an ambiguity is one between different lists |
| `DependencyCheck.CheckDirect` | Source/SDK/tools/check_python_dependencies.py:89-100 | Leaves the direct requirements whose marker holds and whose version could be compared; no failure exactly if all applicable ones are met; a marker that cannot be evaluated ends the script |
| `DependencyCheck.RemoveFirst` | Source/SDK/tools/check_python_dependencies.py:98-100 | `remove` takes out the element the loop is at |
| `DependencyCheck.CheckLine` | Source/SDK/tools/check_python_dependencies.py:111-118 | A line is needed if its marker holds for some extra; an exception is raised exactly if the line is malformed, or for some extra the marker cannot be evaluated, or it holds and the version cannot be compared; no failure and no exception exactly if it is well-formed and met |
| `DependencyCheck.CheckRequirement` | Source/SDK/tools/check_python_dependencies.py:107-118 | Raises an exception exactly if the package is not installed or some line raises one; otherwise collects exactly the needed dependencies; succeeds exactly if all of them are met and nothing is raised |
| `DependencyCheck.CheckLevel` | Source/SDK/tools/check_python_dependencies.py:106-127 | The next level is what the requirements that raise nothing need and has not been checked; each exception of the level makes exactly one report, in order, and it blames the last direct requirement |
| `DependencyCheck.BlameIsRight` | Source/SDK/tools/check_python_dependencies.py:124-127 | For every level: the reports name the requirements at fault if and only if nothing but the last direct requirement raises an exception |
| `DependencyCheck.BlamesTheWrongOne` | Source/SDK/tools/check_python_dependencies.py:124-127 | It need not: of two requirements the first has malformed metadata, and the second is blamed |
| `DependencyCheck.SearchIsExact` | Source/SDK/tools/check_python_dependencies.py:102-123 | What has been checked in the end is exactly what can be reached from the kept direct requirements through requirements that raise nothing |
| `DependencyCheck.ReportsAreRight` | Source/SDK/tools/check_python_dependencies.py:102-127 | For the whole script: the search reports every exception under the name at fault if and only if nothing it gets to raises one, except for the last direct requirement |
| `DependencyCheck.LevelGrows` | Source/SDK/tools/check_python_dependencies.py:102-105 | Every level adds to the checked set, within a finite universe |
| `DependencyCheck.LevelProgress` | Source/SDK/tools/check_python_dependencies.py:102-127 | Each level keeps: all seen is reachable, all checked is good and its dependencies seen, or else something reachable is not satisfied |
| `DependencyCheck.DepsAre` | Source/SDK/tools/check_python_dependencies.py:109-118 | What is a dependency: a requirement on a line of the installed package whose marker, if it has one, holds for one of the extras, or for the extra "" if there are none |
| `DependencyCheck.RootsAre` | Source/SDK/tools/check_python_dependencies.py:89-100 | A direct requirement applies if it has no marker, or its marker holds without an extra |
| `DependencyCheck.ReadableIs` | Source/SDK/tools/check_python_dependencies.py:106-118 | Dependencies can be listed exactly if the package is installed, no line is malformed, and every marker evaluates for every extra |
| `DependencyCheck.ClosedHoldsPath` | Source/SDK/tools/check_python_dependencies.py:119-123 | A set closed under dependencies that holds the roots holds everything reachable |
| `DependencyCheck.Check` | Source/SDK/tools/check_python_dependencies.py:81-127 | Ends for every environment, cycles included; reports nothing if and only if everything reachable from the applicable direct requirements is met and can be listed; a version report names a reachable requirement that is not met; a failed comparison of a direct requirement is reported under its name, and every exception of the search once, under the name of the last direct requirement |
| `Debounce.DebouncedIsLastSteady` | Source/Laser_Driver/main/UserInterface/triggerDriver.c:92-122 | The specification is the value of the most recent three equal consecutive samples, or released |
| `Debounce.ChangesAlternate` | Source/Laser_Driver/main/UserInterface/triggerDriver.c:97-104 | Changes are press, release, press, and so on |
| `Debounce.NextSample` | Source/Laser_Driver/main/UserInterface/triggerDriver.c:92-122 | One more sample changes the debounced value exactly when it completes a run of three of the other value |
| `Debounce.PressedIsHeld` | Source/Laser_Driver/main/UserInterface/triggerDriver.c:80-122 | The debounced value in terms of pin levels and polarity |
| `Debounce.TriggerDriver.InitDriver` | Source/Laser_Driver/main/UserInterface/triggerDriver.c:151-189 | Starts released; a first initialisation gives a valid state |
| `Debounce.TriggerDriver.Sample` | Source/Laser_Driver/main/UserInterface/triggerDriver.c:80-122 | One round of the task keeps state, counters and callbacks equal to what the history means; one counter is reset, the other one goes up without wrapping, and to its greatest value when the state changes |
| `Debounce.TriggerDriver.TriggerTask` | Source/Laser_Driver/main/UserInterface/triggerDriver.c:74-127 | After any sequence of pin levels the state is pressed exactly if the last level held for three samples is the one that the polarity makes a press, and released otherwise; the callbacks are the changes of that, and they alternate |

## Left out

- Clocks, spinlocks, logging, GPIO, tasks and queues of the operating system: a timeout is a bounded number of
  replies, a pin level is a parameter, a lock that the caller must hold is not modelled.
- MemBufs: a pending buffer of positive size, block sizes below 2^15 and the 16-bit header are assumed
  (`CONFIG_APPTRACE_SV_ENABLE` off); host data fits in the block it is put in; ring sizes are below 2^31. A packet is
  completed before the next call; several open packets at once are not modelled.
- Guards: the path before the scheduler starts, `static_init_prepare`, and the upper limit of the semaphore. Liveness
  under a fair scheduler is not stated; NobodyStranded says which tasks can go on.
- OtaWrite: the list of open handles (one handle is modelled), read-only partitions and failures of the flash chip,
  image verification, secure boot and anti-rollback, `esp_ota_write_with_offset`. Offsets are below 2^31, and flash
  encryption stores what a reader will see.
- OtaSelect.BootConfig.SetBootPartition: image verification is a parameter, and anti-rollback is not modelled; flash
  operations do not fail (a power failure is the subject of SwitchSurvivesPowerLoss).
- OtaSelect.SwitchOtaPartition: takes the slot by number only; a failing connection to the device is not modelled.
- TaskScheduler.EndsIfNoCycle: order dependencies on commands that come up without being requested, and are no
  dependencies; such an order dependency counts only while its target is in the list.
- TaskScheduler.ExecuteTasks: dependencies are canonical names of existing commands; options, aliases, callbacks and
  the execution of the queue are not modelled.
- SplitArgv.Split: requires an argv of at least one entry, without which the subtraction in the source wraps around.
- DfuArchive: MD5 and CRC-32 are parameters; file names are their UTF-8 bytes; the command line, the flash size
  choices and the sorting of the files by address are not modelled.
- PathSplitter: the texts of warnings and errors; the loop over the parts of a CMake variable.
- DependencyCheck: reading the requirement and constraint files, parsing requirements, and the messages' texts. The
  order in which a set is listed is left open.
- Debounce: initialising the driver twice, which would start a second task on the same counters.
- Sensors, temperature conversion, PWM, UART and ADC drivers, TLS, the console loop, `idf_tools.py` and the build
  helpers: drivers, stubs and text handling whose properties are shallow or live in libraries not shown.
