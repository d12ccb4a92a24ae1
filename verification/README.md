# keonOS in Dafny

A model of the stateful core of keonOS, an x86_64 kernel, with proofs of what that core keeps over every run. Each
module follows one component and takes its form: objects updated in place are classes, linked records are maps from
addresses to records, in-place tables are arrays, and every method is proved against functions on values about which
the lemmas speak.

| module | component |
|---|---|
| `Common`, `Bits`, `Bytes` | word and page sizes, bitmaps in words, little-endian bytes |
| `Frames` | the physical frame bitmap, filled from the Multiboot2 memory map |
| `PageTables` | four-level page tables made of those frames, refined to a flat page map |
| `Paging` | the code that edits them through the direct map, on every machine, and when it does what it means |
| `Growth` | the pages of the kernel break over those tables |
| `Vmm`, `HeapBlocks`, `Heap` | the kernel break and the first-fit heap on top of it, as lists and as linked headers |
| `Threads`, `Scheduler` | the run ring and the zombie list, as lists and as linked records |
| `Ext4Blocks` | block bitmaps and free counts |
| `Ext4Extents`, `Ext4Tree` | extents in the inode, and extent trees of any depth |
| `Ext4Files` | file reads and writes in write-through mode |
| `Ext4Dir` | directory records in bytes |
| `Ext4Journal`, `Ext4Pending` | transactions, the log ring and home blocks; block allocation through them |
| `Fat32` | cluster chains |
| `KeonFs` | the ramdisk image, its packer and its reader |

Hardware access is left out: a disk is a sequence or map of blocks, memory a map from frames or addresses to contents,
and switching threads sets the current one. Machine integers are unbounded integers with the wrap-around written out
wherever it can occur in the modelled code, except where "Left out" says otherwise.

Where comments or names in the code promise more than the code does, the model follows the code, and the exact
condition is proved:

- the paging code reads, writes and zeroes tables and frames through the direct map, pages of the tables it edits: it
  reaches a frame exactly while the frame's page there is mapped to it (`Paging.SeesExact`), one map call can cut it off
  from its tables (`Paging.CutOff`), and an allocation can zero a page in use (`Paging.AllocZeroes`). Runs are right
  under a condition on each call (`Paging.Run`, `Paging.ClearRun`). The heap depends on it too: `kernel_main` puts the
  break inside the direct map, so that `sbrk` maps pages that stand for frames handed out before or after
  (`Growth.CanGrow` is the condition);
- `sbrk` succeeds without looking whether its pages got mapped (`Growth.GrownAt`);
- page flags above bit 11 (NX) are merged into the physical address (`Paging.MappedTranslation`);
- the used-frame count is off by the overlap of memory-map entries (`Frames.FrameAllocator.CountedIsValid`), and a
  module is reserved whole only if it fits its page count (`Frames.MarkedCovers`);
- heap statistics are exact only until the heap has grown (`Heap.FreeSizeExact`), and requests near 2^64 wrap
  (`Heap.GrowthCoversRequest`, `Heap.GrowthVanishes`);
- reads and writes near 4 GiB wrap (`Common.ReadLengthExact`, `Ext4Files.WriteVisible`), and so does the check that a
  ramdisk file lies inside its image (`KeonFs.CheckedInside`);
- long names cannot be found or listed again (`Ext4Dir.FoundIfShort`, `Ext4Dir.ShownName`, `KeonFs.FullNameFound`,
  `KeonFs.Reachable`);
- frame 0 has the address that stands for failure (`Frames.FrameAllocator.AllocFrame`);
- a transaction started over pending writes drops them (`Ext4Journal.StartLosesNothing`), and reads do not see pending
  writes (`Ext4Journal.ReadFresh`), so that two allocations can return one block (`Ext4Pending.AllocateTwice`);
- freeing a free block spoils the counts (`Ext4Blocks.Volume.FreeBlock`), and extending a FAT32 file on a full volume
  spoils its chain (`Fat32.ExtendKeeps`).

`dafny verify dfyconfig.toml` checks the whole project.

## Model

| member | source | states |
|---|---|---|
| `Frames.HighestEnd` | kernel/arch/x86_64/paging.cpp:103-126 | no AVAILABLE entry of any memory-map tag ends above the result, and the result is 0 or the end of one |
| `Frames.PagesBelowMax` | kernel/arch/x86_64/paging.cpp:114-128 | every whole page of an AVAILABLE entry lies below the frame count derived from that largest end, so releasing it stays inside the bitmap |
| `Frames.OverlapFree` | kernel/arch/x86_64/paging.cpp:136-160 | the number of pages released twice is 0 exactly if the AVAILABLE entries are pairwise disjoint as sets of whole pages |
| `Frames.OverlapIs` | kernel/arch/x86_64/paging.cpp:136-160 | that number is the whole pages of all entries, each counted for every entry it lies in, less the pages of their union |
| `Frames.MarkedCovers` | kernel/arch/x86_64/paging.cpp:46-62 | marking a count of frames from an address covers a byte range exactly if the offset in the first page plus the length fits in the marked pages; a module whose start is not page-aligned may stick out |
| `Frames.ModuleCovered` | kernel/arch/x86_64/paging.cpp:175-183 | every byte of a boot module is in a page marked for it if and only if its size plus 4095 is below 2^32 and the offset in its first page leaves room in the size rounded up to pages |
| `Frames.FreeAtBoot` | kernel/arch/x86_64/paging.cpp:136-185 | a frame is free after initialisation if and only if some AVAILABLE entry holds all its 4096 bytes and none of the page ranges set aside (256 low frames, image, bitmap, boot information, modules) holds it |
| `Frames.FrameAllocator.MarkUsed` | kernel/arch/x86_64/paging.cpp:46-62 | exactly the named frames leave the free set and the used count follows the bits; frames out of range and frames already in use change nothing |
| `Frames.FrameAllocator.FreeFrame` | kernel/arch/x86_64/paging.cpp:64-77 | the frame joins the free set, the used count stays as exact as initialisation left it, and a second free or a frame out of range changes nothing; freeing frame 0 makes the next allocation fail |
| `Frames.FrameAllocator.LowestFree` | kernel/arch/x86_64/paging.cpp:82-90 | the search word by word finds the lowest free frame, and none exactly if none is free |
| `Frames.FrameAllocator.AllocFrame` | kernel/arch/x86_64/paging.cpp:79-101 | takes the lowest free frame, and nothing exactly if none is free; its address reads as success if and only if a frame is free and frame 0, whose address is null, is not |
| `Frames.FrameAllocator.ReleaseEntry` | kernel/arch/x86_64/paging.cpp:147-158 | an entry's whole pages join the free set, and the used count errs by one for each page that was free already |
| `Frames.FrameAllocator.Reserve` | kernel/arch/x86_64/paging.cpp:162-184 | afterwards no byte of the first MiB, of the kernel image, of the 64 pages at the boot information, of the bitmap or of a module, the last two if they fit their pages, lies in a free frame; exactly the page ranges leave the free set |
| `Frames.FrameAllocator.FromMultiboot` | kernel/arch/x86_64/paging.cpp:103-185 | after initialisation no byte of the first MiB, the kernel image, the boot information's 64 pages, the bitmap or a module (the last two if they fit their pages) lies in a free frame; every other frame that an AVAILABLE entry holds whole is free, and no other; the used count errs by the overlap of the entries |
| `Frames.FrameAllocator.CountedIsValid` | kernel/arch/x86_64/paging.cpp:103-185 | the used count is exact after initialisation if and only if no page was released twice, that is for non-overlapping entries |
| `Frames.FrameAllocator.UsedIsSetBits` | kernel/arch/x86_64/paging.cpp:46-101 | the allocator's invariant says that the used count is the number of set bits below the frame count |
| `PageTables.IndexBits` | include/kernel/constants.h:71-74 | the page of an address is given by its four nine-bit fields, bits 39-47, 30-38, 21-29 and 12-20 |
| `PageTables.SamePage` | include/kernel/constants.h:71-74 | two page numbers lead to the same four table indices exactly if they agree in their last 36 bits, that is addresses in bits 12 to 47 |
| `PageTables.WalkAgrees` | kernel/arch/x86_64/paging.cpp:187-217 | for every page the hardware's four-level walk through memory finds exactly what the flat page map says, or nothing where the map has nothing |
| `PageTables.GrantedExact` | kernel/arch/x86_64/paging.cpp:187-217 | the processor grants user or write access to a page, by the bits of all four levels, exactly if the page is mapped and its leaf has the bit |
| `PageTables.OrBit` | kernel/arch/x86_64/paging.cpp:232-232 | the merged word has the bits of both |
| `PageTables.LinkAgrees` | kernel/arch/x86_64/paging.cpp:204-207 | hanging a fresh zeroed table frame into the tree changes no translation |
| `PageTables.StoreLeafAgrees` | kernel/arch/x86_64/paging.cpp:230-232 | writing one leaf entry updates the flat map at that page and nowhere else, given that the tables above have the USER and RW bits of the leaf |
| `PageTables.StoreUpperAgrees` | kernel/arch/x86_64/paging.cpp:209-213 | setting USER or RW in an upper entry changes no translation and takes no right away |
| `Paging.WindowIs` | include/kernel/arch/x86_64/paging.h:66-69 | the window of a frame is the page of its address plus 0xFFFFFFFF80000000 in 64-bit arithmetic |
| `Paging.SeesExact` | kernel/arch/x86_64/paging.cpp:187-224 | whatever is written to a frame through its window lands in that frame and nowhere else, if and only if the hardware translates the window to that frame |
| `Paging.KeepsWindowsExact` | kernel/arch/x86_64/paging.cpp:226-240 | after a page has been mapped the code still reaches every table if and only if the page is no table's window or is mapped to that table |
| `Paging.AllocZeroes` | kernel/arch/x86_64/paging.cpp:79-97 | an allocation zeroes the frame that the window of the lowest free frame is mapped to, whoever uses it, and faults exactly if the window is not mapped to memory |
| `Paging.OpensExact` | kernel/arch/x86_64/paging.cpp:199-208 | the way down succeeds exactly if frames can be had for all missing tables (none while frame 0 is free), and takes that many |
| `Paging.StepOpens` | kernel/arch/x86_64/paging.cpp:209-214 | passing a present entry leads to the next table, sets USER and RW in it exactly if asked for or there before, and changes no translation and no table |
| `Paging.StepNew` | kernel/arch/x86_64/paging.cpp:201-208 | a missing table becomes the lowest free frame, zero-filled and linked in by an entry that is present, RW, USER as asked and nothing else, if the code reaches that frame as itself; no translation changes |
| `Paging.WalkRefines` | kernel/arch/x86_64/paging.cpp:187-217 | with creation the walk through windows adds exactly the missing tables, in the lowest frames, changes no translation, and still reaches every table |
| `Paging.LookRefines` | kernel/arch/x86_64/paging.cpp:187-217 | without creation the walk through windows changes nothing and finds the leaf table exactly if there is one |
| `Paging.MapRefines` | kernel/arch/x86_64/paging.cpp:226-240 | a safe map call in a machine whose tables the code reaches ends without a fault in such a machine, with that page alone changed, or with none if the frames ran out |
| `Paging.UnmapRefines` | kernel/arch/x86_64/paging.cpp:243-254 | an unmap call of a page that is no table's window removes that page alone and keeps every table within reach |
| `Paging.LookupRefines` | kernel/arch/x86_64/paging.cpp:269-277 | the code's lookup is the hardware walk, when the code reaches every table |
| `Paging.UserRefines` | kernel/arch/x86_64/paging.cpp:315-328 | the check of all four levels is `present and USER` of the leaf, because a USER leaf has USER at every level above |
| `Paging.AddressSpace.constructor` | kernel/arch/x86_64/paging.cpp:331-335 | the root table is an empty page map in the lowest free frame |
| `Paging.AddressSpace.Alloc` | kernel/arch/x86_64/paging.cpp:79-101 | in every machine, the lowest free frame and the zeroing of what its window leads to |
| `Paging.AddressSpace.Descend` | kernel/arch/x86_64/paging.cpp:199-215 | in every machine, one level of the walk: reads, links and opens entries through windows, or faults |
| `Paging.AddressSpace.LeafTable` | kernel/arch/x86_64/paging.cpp:187-217 | in every machine, the three levels in turn |
| `Paging.AddressSpace.MapEntry` | kernel/arch/x86_64/paging.cpp:226-240 | in every machine what the code does; when the code reaches every table and the call is safe, the page alone changes, the call fails exactly if fewer frames can be had than tables are missing, and the code still reaches every table |
| `Paging.AddressSpace.MapPage` | kernel/arch/x86_64/paging.cpp:226-240 | the same for an address; on success the leaf is present with RW, USER and bits 3-11 exactly as in the flags, and the processor grants user and write access to the page exactly if the flags have the bit |
| `Paging.LeafEntryIs` | kernel/arch/x86_64/paging.cpp:232-232 | the stored leaf is present, has RW, USER and bits 3-11 of the flags, and above bit 11 the bits of the frame address and of the flags |
| `Paging.AddressSpace.UnmapPage` | kernel/arch/x86_64/paging.cpp:243-254 | in every machine what the code does; when the code reaches every table and the page is no table's window, that page alone is removed |
| `Paging.AddressSpace.GetPhysicalAddress` | kernel/arch/x86_64/paging.cpp:269-277 | changes nothing, and when the code reaches every table gives the mapped frame plus the offset in the page, or nothing for an unmapped page |
| `Paging.AddressSpace.IsUserAccessible` | kernel/arch/x86_64/paging.cpp:315-328 | in every machine what the code answers; when it reaches every table, exactly whether the page has a USER leaf |
| `Paging.AddressSpace.FreeFrame` | kernel/arch/x86_64/paging.cpp:64-77 | giving back a frame that is no table keeps the tables |
| `Paging.AddressSpace.MapDirect` | kernel/arch/x86_64/paging.cpp:337-344 | frame k is mapped at its own address and at its window, and the frames below it stay so |
| `Paging.AddressSpace.Init` | kernel/arch/x86_64/paging.cpp:331-357 | after initialisation the first 512 MiB are mapped at their addresses and in the direct map, writable for the kernel alone, exactly their frames are reached as themselves, and the code reaches its own tables if and only if all of them lie there; it fails only with all frames used up, or frame 0 free |
| `Paging.Perform` | kernel/arch/x86_64/paging.cpp:226-254 | a safe map or unmap call has its effect on the mapped pages, and a map succeeds exactly if the missing tables can be had |
| `Paging.Run` | kernel/arch/x86_64/paging.cpp:187-277 | over every run of map and unmap calls that are safe when they come, no call faults, the tables refine the pages obtained by replaying the calls, table frames and free frames are those the calls imply, and the code reaches every table throughout; with three frames to be had for each call all succeed; user and write access are granted exactly as the leaves say |
| `Paging.LastCallStands` | kernel/arch/x86_64/paging.cpp:226-254 | over every run a page is as the last call that changed it left it: unmapped, or a present leaf with the bits of its physical address and flags; and as at the start if none did |
| `Paging.ClearRun` | kernel/arch/x86_64/paging.cpp:187-277 | when the code reaches all tables and all free frames, every run whose calls map no window of one of them elsewhere, and unmap none, is safe |
| `Paging.CutOff` | kernel/arch/x86_64/paging.cpp:187-240 | once a map call has mapped the root table's window to a zero-filled data frame, a second map call reports success and changes no translation of any page |
| `Paging.PhantomMap` | kernel/arch/x86_64/paging.cpp:187-240 | the same for every machine in which the code reaches such a frame as the root table |
| `Paging.MappedTranslation` | kernel/arch/x86_64/paging.cpp:232-275 | after mapping a page its addresses translate to the frame plus the offset if and only if the flag bits above bit 11 are all bits of the frame address (with NX, bit 63, they are not); every other page translates as before |
| `Growth.BreakPage` | mm/vmm.cpp:67-73 | the page of the break after i pages is i pages above the page of the break, in 64-bit arithmetic |
| `Growth.MapBreak` | mm/vmm.cpp:69-73 | one page of sbrk: it goes on exactly if a frame can be had; the page is mapped to it if frames are left for the missing tables, and is left as it was, the frame lost, if not |
| `Growth.MapBreaks` | mm/vmm.cpp:67-75 | the loop of sbrk succeeds exactly if there is a frame for every page when its turn comes, whether or not the pages get mapped |
| `Growth.GrownAt` | mm/vmm.cpp:67-75 | after the loop a page leads, writable for the kernel alone, to a frame that was free if, when its turn came, more frames could be had than tables were missing, and otherwise is what it was before, although the call may succeed |
| `Vmm.Vmm.Sbrk` | mm/vmm.cpp:57-76 | the break moves, modulo 2^64, by as many pages as there are frames for, up to the pages asked for; the call succeeds exactly if it got them all, a failed call keeps what it got, and the statistics count everything asked for |
| `HeapBlocks.TakeOrdered` | mm/heap.cpp:58-74 | taking a block, split or whole, keeps the blocks in address order and disjoint |
| `HeapBlocks.TakeCoalesced` | mm/heap.cpp:58-74 | taking a block never leaves two free neighbours |
| `HeapBlocks.TakeLive` | mm/heap.cpp:58-74 | taking a block adds one live block at its old address, of the size asked for if more than 40 bytes would be left over and else of the whole free block, and keeps all other live blocks and the byte total |
| `HeapBlocks.TakeRest` | mm/heap.cpp:60-69 | what is left over is one free block right behind it, up to where the old block ended; every other block keeps its place |
| `HeapBlocks.MergeCoalesces` | mm/heap.cpp:116-125 | the coalescing pass leaves no two free neighbours, keeps every live block exactly, and keeps the byte total |
| `HeapBlocks.MergeOrdered` | mm/heap.cpp:116-125 | the coalescing pass keeps address order and disjointness |
| `HeapBlocks.MergeAfterMergeAt` | mm/heap.cpp:110-114 | merging with the next block first, as kfree does, makes no difference to the result of the full pass |
| `HeapBlocks.FreeUndoesTake` | mm/heap.cpp:46-127 | kfree right after a kmalloc that took a listed block restores the block list exactly |
| `HeapBlocks.FreeLive` | mm/heap.cpp:101-127 | freeing removes exactly the freed block from the live blocks and loses no byte |
| `Heap.BytesSpan` | mm/heap.cpp:46-98 | blocks in order inside an interval take no more bytes than it has |
| `Heap.GrowthCoversRequest` | mm/heap.cpp:50-90 | rounding and growth arithmetic yields a block that covers the request if and only if the request is at most 2^64 - 4128 |
| `Heap.Round16Is` | mm/heap.cpp:50-51 | the rounded request is the least multiple of 16 that holds the request, up to 2^64 - 16 |
| `Heap.ActualSizeIs` | mm/heap.cpp:79-90 | growth is the least number of whole pages that holds the rounded request and a header, up to 2^64 - 4128 |
| `Heap.GrowthVanishes` | mm/heap.cpp:79-90 | growth comes out as no page at all exactly for requests above 2^64 - 4128 and at most 2^64 - 32 |
| `Heap.HeaderSpare` | mm/heap.cpp:58-98 | none of the 24 bytes of a header, nor of room for one in a free block or above the break, lies in a live payload |
| `Heap.PutKeeps` | mm/heap.cpp:58-98 | a header written there changes no byte of any live payload |
| `Heap.Heap.Init` | mm/heap.cpp:32-43 | makes the region one free block wherever it is, and the heap is valid exactly if the region lies below the break; refuses a null address or a region under two headers, changing nothing |
| `Heap.Heap.Search` | mm/heap.cpp:53-77 | finds the first free block that is large enough, and the last block when there is none |
| `Heap.Heap.SplitBlock` | mm/heap.cpp:60-69 | the linked headers in memory again list the blocks, and no byte of any live block's payload is overwritten by the 24 bytes of either header |
| `Heap.Heap.Grow` | mm/heap.cpp:79-98 | appends a live block of whole pages if the break could be moved all the way, and leaves the list alone if not, even if the break moved part-way |
| `Heap.Heap.Kmalloc` | mm/heap.cpp:46-99 | first fit, else growth, else null, with exactly these blocks, break and frames after it; keeps order, disjointness, coalescing and the linked headers, and overwrites no byte of any live payload |
| `Heap.Heap.CoalesceAll` | mm/heap.cpp:116-125 | the in-place pass over linked headers computes the full merge and writes no live payload |
| `Heap.Heap.Kfree` | mm/heap.cpp:101-127 | the block list becomes the full merge with that block free; null is ignored; no byte of a block that stays live is written |
| `Heap.AllocationLaw` | mm/heap.cpp:46-99 | a successful kmalloc returns a payload no live block has, holding the request up to 2^64 - 4128, of the rounded size if cut from a block with more than 40 bytes over, of the whole block otherwise, of whole pages less a header if the heap grew; it keeps every live block; a failed one changes no block |
| `Heap.ByteLaw` | mm/heap.cpp:46-99 | header plus payload bytes change only by growth, by whole pages; bytes below the break that no block covers change only when a growth fails after taking pages, by those pages; the start stays |
| `Heap.ReleaseLaw` | mm/heap.cpp:101-127 | kfree keeps order, leaves no free neighbours, loses no byte, and removes the freed block alone from the live ones |
| `Heap.Run` | mm/heap.cpp:46-127 | every run of kmalloc and kfree on linked headers, none of whose growths moves the break around the end of the address space, is a run of the functions on block lists, pointers handed out are distinct live payloads, start and recorded total are kept, and no byte of a payload that belongs to others is overwritten |
| `Heap.RoomyNeverWraps` | mm/vmm.cpp:67-74 | if the address space above the break has room for all frames left, no run moves the break around its end |
| `Heap.RunLaw` | mm/heap.cpp:46-127 | over every run the invariants hold; the blocks gain bytes if and only if some request is served by growth, and the bytes below the break that no block covers grow if and only if some growth fails after taking pages |
| `Heap.ExactTiling` | mm/heap.cpp:60-98 | on a heap that reaches up to the break, header plus payload bytes of all blocks never exceed the break minus the heap start, and equal it after a run if and only if no growth failed after taking pages |
| `Heap.GetStats` | mm/heap.cpp:130-157 | block counts are exact, used size is payload plus headers cut off at the total, and free size is the rest of the total |
| `Heap.FreeSizeExact` | mm/heap.cpp:130-157 | after a run from a heap whose blocks made up the recorded total they still do if and only if no request was served by growth; the reported free size is the sum over free blocks if and only if no request was served by growth or nothing is free |
| `Heap.FromInit` | mm/heap.cpp:32-157 | initialisation, any run and the statistics together: both of the above for the real heap |
| `Threads.YieldTurns` | kernel/arch/x86_64/thread.cpp:181-242 | yield is a rotation of the run ring after expired sleepers wake |
| `Threads.YieldKeeps` | kernel/arch/x86_64/thread.cpp:181-242 | yield keeps a proper ring with the kernel and idle threads and no zombie, and moves no thread between lists |
| `Threads.YieldPicks` | kernel/arch/x86_64/thread.cpp:194-220 | idle runs next exactly if no other ring thread is READY or a sleeper with no ticks left; otherwise such a thread runs |
| `Threads.YieldPicksFirst` | kernel/arch/x86_64/thread.cpp:194-220 | it is the first such thread behind the running one |
| `Threads.YieldEffect` | kernel/arch/x86_64/thread.cpp:194-199 | to each thread of the ring, yield makes it READY if it slept with no ticks left, and changes nothing else of it |
| `Threads.TickEffect` | drivers/timer.cpp:55-73 | a timer interrupt takes one tick from every sleeper of the ring and makes it READY if it had at most one; no other thread changes |
| `Threads.ParkEffect` | kernel/arch/x86_64/thread.cpp:244-255 | sleep leaves the caller SLEEPING with max(1, ms / 10) ticks, blocking leaves it BLOCKED with its ticks; the others see a yield |
| `Threads.WakeEffect` | kernel/arch/x86_64/thread.cpp:478-489 | waking makes every BLOCKED thread of the ring READY and changes nothing else |
| `Threads.ExitEffect` | kernel/arch/x86_64/thread.cpp:450-476 | the exiting thread is a ZOMBIE with its exit code; the others see a yield |
| `Threads.SleeperSleeps` | drivers/timer.cpp:55-73 | over every run in which it is not killed, a thread asleep for s ticks is asleep for s - n after n < s timer interrupts, and does not run |
| `Threads.SleeperWakes` | drivers/timer.cpp:55-73 | and the s-th timer interrupt leaves it READY in the ring |
| `Threads.SleepLasts` | kernel/arch/x86_64/thread.cpp:244-255 | a thread that calls sleep(ms) sleeps through fewer than max(1, ms / 10) timer interrupts of any such run, and is READY after that many |
| `Threads.AddKeeps` | kernel/arch/x86_64/thread.cpp:165-179 | adding keeps the invariants and adds one thread to those there are |
| `Threads.AddLaw` | kernel/arch/x86_64/thread.cpp:165-179 | the new thread comes right behind the running one, READY, without ticks or exit code, with the next id, and no other thread changes; ids go on by one and from 2^32 - 1 to 0 |
| `Threads.KillLaw` | kernel/arch/x86_64/thread.cpp:391-424 | kill keeps the invariants, every thread and the running one; it has an effect exactly if the id is allowed and a ring thread has it |
| `Threads.KillMoves` | kernel/arch/x86_64/thread.cpp:391-424 | an effective kill moves exactly one thread, with that id and not the running one, from its place in the ring to the head of the zombie list, and changes no other |
| `Threads.ExitLaw` | kernel/arch/x86_64/thread.cpp:450-476 | the exiting thread leaves the ring for the head of the zombie list, and another thread runs |
| `Threads.ReapLaw` | kernel/arch/x86_64/thread.cpp:76-143 | reaping frees exactly the zombies, and never the running thread |
| `Threads.StepKeeps` | kernel/arch/x86_64/thread.cpp:76-489 | every step keeps the invariants, and each thread is in exactly one of ring, zombie list or reclaimed |
| `Threads.RunKeeps` | kernel/arch/x86_64/thread.cpp:76-489 | over every run, threads present at the start plus those created are, as a multiset, those present at the end plus those reclaimed |
| `Threads.RunsWithinDistance` | kernel/arch/x86_64/thread.cpp:181-242 | in a run with no thread_add and no exit of the running thread, a non-idle thread that stays READY at ring distance d runs within d yields |
| `Scheduler.Scheduler.constructor` | kernel/arch/x86_64/thread.cpp:145-163 | the first ring is kernel, then idle, linked in a cycle |
| `Scheduler.Scheduler.ForRing` | kernel/arch/x86_64/thread.cpp:194-199 | a do-while walk along the next links visits every record of the ring once, stops where it began, and changes no link |
| `Scheduler.Scheduler.FindRunnable` | kernel/arch/x86_64/thread.cpp:206-214 | the scan finds the first READY thread other than idle in ring order |
| `Scheduler.Scheduler.DoYield` | kernel/arch/x86_64/thread.cpp:181-242 | the pointer code computes the yield step |
| `Scheduler.Scheduler.TimerHandler` | drivers/timer.cpp:49-73 | counts every sleeper down, wakes those at 0, then yields |
| `Scheduler.Scheduler.ThreadSleep` | kernel/arch/x86_64/thread.cpp:244-255 | parks the running thread for at least one tick, then yields |
| `Scheduler.Scheduler.Block` | drivers/keyboard.cpp:107-111 | parks the running thread until a wake-up, then yields |
| `Scheduler.Scheduler.WakeBlocked` | kernel/arch/x86_64/thread.cpp:478-489 | every blocked ring thread becomes READY and nothing else changes |
| `Scheduler.Scheduler.ThreadAdd` | kernel/arch/x86_64/thread.cpp:165-179 | links the new record behind the running thread with the next id; a null record changes nothing |
| `Scheduler.Scheduler.ThreadKill` | kernel/arch/x86_64/thread.cpp:391-424 | unlinks the thread, keeps the ring a cycle and the zombie list null-terminated, and reports whether anything changed |
| `Scheduler.Scheduler.ThreadExit` | kernel/arch/x86_64/thread.cpp:450-476 | panics exactly for a system thread; otherwise unlinks the running thread, buries it and switches away, starting the scan at idle |
| `Scheduler.Scheduler.CleanupZombies` | kernel/arch/x86_64/thread.cpp:76-143 | frees exactly the records on the zombie list, reading each next link before its record is freed |
| `Scheduler.DoStep` | kernel/arch/x86_64/thread.cpp:76-489 | each operation on linked records is the abstract step of the same name |
| `Scheduler.Run` | kernel/arch/x86_64/thread.cpp:76-489 | every run on linked records is the abstract run |
| `Ext4Blocks.Layout.PlaceOfAbsolute` | fs/ext4_vfs.cpp:1025-1026 | group and bit are recovered from the absolute block number |
| `Ext4Blocks.Layout.AbsoluteOfPlace` | fs/ext4_vfs.cpp:1079-1085 | the absolute block number is recovered from group and bit |
| `Ext4Blocks.FlipFree` | fs/ext4_vfs.cpp:926-945 | changing one bit changes whether that block is free, and no other |
| `Ext4Blocks.FlipCounted` | fs/ext4_vfs.cpp:1079-1095 | counts stay exact across a bit change if and only if the bit really changed |
| `Ext4Blocks.FreeUndoesAllocate` | fs/ext4_vfs.cpp:989-1095 | freeing the block just allocated restores bitmaps, group counts and total exactly |
| `Ext4Blocks.FreeTotalExact` | fs/ext4_vfs.cpp:1015-1023 | the superblock's free count is the number of free blocks of the volume |
| `Ext4Blocks.LowestFree` | fs/ext4_vfs.cpp:989-1008 | the first clear bit of the first group that has one is the lowest free block of the volume |
| `Ext4Blocks.Volume.AllocateBlock` | fs/ext4_vfs.cpp:989-1033 | returns the lowest free block and marks that block alone; returns 0 exactly if the volume is full, changing nothing; bitmaps and counts stay in step |
| `Ext4Blocks.Volume.FreeBlock` | fs/ext4_vfs.cpp:1079-1095 | clears that block's bit and counts up without looking; the counts stay exact if and only if the block was in use |
| `Ext4Blocks.Perform` | fs/ext4_vfs.cpp:926-1113 | an allocation takes the lowest free block if there is one, a free gives back a held one, and nothing else changes |
| `Ext4Blocks.Run` | fs/ext4_vfs.cpp:926-1113 | over every run of allocate and free calls each call does its step, the held blocks are distinct, in use and no bitmaps, each group's count is its clear bits, the counts sum to the total, and total plus held blocks is constant |
| `Ext4Extents.StoredStart` | include/fs/ext4_structs.h:232-267 | splitting a block number into 16 and 32 bits and joining it again gives it back exactly if it is below 2^48 |
| `Ext4Extents.GetBlockAppend` | fs/ext4_vfs.cpp:361-376 | a lookup in a list with one more extent |
| `Ext4Extents.AddBlockIsUpdate` | fs/ext4_vfs.cpp:237-327 | adding a block, merged into the last extent or as a new one, updates the lookup at that logical block and nowhere else, and adds one to the sum of extent lengths |
| `Ext4Files.GrownSound` | fs/ext4_vfs.cpp:507-517 | giving a file a block that was free keeps all files' blocks apart |
| `Ext4Files.StoredBytes` | fs/ext4_vfs.cpp:522-530 | data written to a file's block is seen at that logical block of that file and nowhere else |
| `Ext4Files.FileSystem.AllocateExtent` | fs/ext4_vfs.cpp:237-327 | gives the logical block the lowest free block, in the last extent if both follow it and it is shorter than 32768, else in a new extent; fails if and only if no block is free, or the list is full and that is not so, and then mapping and allocation state are exactly as before; the number of extents grows by one exactly if the block did not join the last |
| `Ext4Files.FileSystem.WriteBlock` | fs/ext4_vfs.cpp:501-530 | one block of a write: the chunk is there, and all other bytes of the block, the file and other files are unchanged |
| `Ext4Files.FileSystem.Write` | fs/ext4_vfs.cpp:489-549 | the bytes written are there, every other byte that had a block is unchanged in every file, the size becomes the larger of old size and end; it stops early only at a byte in a hole for which no block is free, or the extent list is full and the lowest free block does not adjoin the last extent; blocks move from the free count to the file, none lost |
| `Ext4Files.FileSystem.Read` | fs/ext4_vfs.cpp:450-487 | returns the file's bytes from the offset, zeros where it has no block, as many as the size check allows |
| `Ext4Files.SpliceLaw` | fs/ext4_vfs.cpp:489-549 | on a file without holes, a write at an offset within or at the end of it splices the data actually written into the contents, and leaves no holes |
| `Ext4Files.OthersKept` | fs/ext4_vfs.cpp:489-549 | a write leaves the contents of every other file as they were |
| `Ext4Files.ReadBack` | fs/ext4_vfs.cpp:450-549 | a read of the range just written returns what was written |
| `Ext4Files.WriteVisible` | fs/ext4_vfs.cpp:535-540 | all bytes written lie within the new size if and only if the write ends below 2^32 |
| `Ext4Files.RunIsReplay` | fs/ext4_vfs.cpp:450-549 | over every run of writes to any files, the contents are those of plain byte strings spliced in turn |
| `Common.ReadLengthExact` | fs/ext4_vfs.cpp:455-456 | the length check cuts a read off at the end of the file if and only if it starts past the end or offset plus length does not wrap round 2^32 |
| `Ext4Tree.ChildReads` | include/fs/ext4_structs.h:240-245 | a child block number split into 16 and 32 bits reads back exactly below 2^48 |
| `Ext4Tree.SearchIndex` | fs/ext4_vfs.cpp:380-395 | finds the first index entry whose range holds the block |
| `Ext4Tree.SearchLeaf` | fs/ext4_vfs.cpp:361-376 | finds the first extent that covers the block, or 0 |
| `Ext4Tree.LeavesRanged` | fs/ext4_vfs.cpp:384-395 | in a sorted tree all leaf extents under a node lie in the node's range |
| `Ext4Tree.DescendStep` | fs/ext4_vfs.cpp:378-419 | going down to the chosen child loses no extent that could hold the block |
| `Ext4Tree.ExtentGetBlock` | fs/ext4_vfs.cpp:330-424 | for every sorted tree of any depth and every 32-bit block number the walk down one path returns what a linear search of all leaf extents returns; it ends because depth falls; an inode without extents or with a bad root gives 0, and blocks with a bad magic number hold nothing |
| `Ext4Dir.UsedLength` | fs/ext4_vfs.cpp:1170-1174 | 8 bytes and the name, rounded up to a multiple of 4 |
| `Ext4Dir.SplitInserts` | fs/ext4_vfs.cpp:1251-1268 | shrinking a record and putting a new one behind it keeps the records tiling the block, 4-aligned |
| `Ext4Dir.SplitLive` | fs/ext4_vfs.cpp:1251-1268 | and inserts one entry right behind the old one |
| `Ext4Dir.MergeRemoves` | fs/ext4_vfs.cpp:846-850 | adding a record's length to the one before it keeps the tiling and removes that entry alone |
| `Ext4Dir.ClearRemoves` | fs/ext4_vfs.cpp:851-857 | zeroing the first record's inode keeps the tiling and removes that entry alone |
| `Ext4Dir.Directory.FindInBlock` | fs/ext4_vfs.cpp:829-867 | the walk by record lengths finds the first record in use with the name, and the record before it |
| `Ext4Dir.Directory.Finddir` | fs/ext4_vfs.cpp:640-693 | returns the inode of the first entry with the name, and nothing exactly if no entry has it |
| `Ext4Dir.Directory.NthEntry` | fs/ext4_vfs.cpp:571-638 | the walk finds entry number i of the list of entries in use, block after block, and nothing past its end |
| `Ext4Dir.FillDirent` | fs/ext4_vfs.cpp:607-620 | the caller's record has inode and type of the entry, and in its 128-byte field the first 128 bytes of the name and zeros behind a shorter one |
| `Ext4Dir.Directory.Readdir` | fs/ext4_vfs.cpp:571-638 | returns entry number i of the list, with its inode and type, and with its name closed by a 0 inside the 128-byte field if and only if it has at most 127 bytes; a reader of a longer one runs on into the inode behind the field |
| `Ext4Dir.ShownName` | fs/ext4_vfs.cpp:610-612 | the field holds a 0, and the bytes before the first 0 are the entry's name, if and only if that has at most 127 bytes |
| `Ext4Dir.LongNameNotListed` | fs/ext4_vfs.cpp:610-612 | a name of 200 letters can be looked up and is never listed |
| `Ext4Dir.Directory.FindFreeEntrySpace` | fs/ext4_vfs.cpp:1141-1197 | finds a record with enough room, and fails exactly if no record in any block has it |
| `Ext4Dir.Directory.Create` | fs/ext4_vfs.cpp:1199-1284 | succeeds exactly if there is an inode and a record with room; then inserts exactly one entry into the list and keeps the tiling, and otherwise changes nothing |
| `Ext4Dir.Directory.Unlink` | fs/ext4_vfs.cpp:806-868 | removes exactly the first entry with the name and keeps the tiling; fails exactly if there is none, changing nothing |
| `Ext4Dir.FirstBlock` | fs/ext4_vfs.cpp:732-754 | the first block of a new directory is tiled by its two records and lists `.` and `..` |
| `Ext4Dir.LookupWith` | fs/ext4_vfs.cpp:640-693 | after an insertion the new name is found and every other name looks up as before |
| `Ext4Dir.LookupWithout` | fs/ext4_vfs.cpp:640-693 | after a removal from a list of distinct names that name is gone and every other name looks up as before |
| `Ext4Dir.FoundIfShort` | fs/ext4_vfs.cpp:1204-1204 | a created name can be found if and only if it has at most 255 bytes, since the length is kept in one byte |
| `Ext4Dir.Perform` | fs/ext4_vfs.cpp:640-1284 | one create or unlink succeeds exactly if it should and has its effect on the map from names to inodes |
| `Ext4Dir.Run` | fs/ext4_vfs.cpp:571-1272 | over every run of creates of absent names and unlinks the records tile their blocks, names stay distinct, each operation succeeds exactly if the map and the records then say so, and looking up any name agrees with a map updated by the successful operations |
| `Ext4Journal.RingDistinct` | fs/ext4_journal.cpp:59-64 | the slots of one transaction are distinct, and are never slot 0 or beyond slot 1023 |
| `Ext4Journal.Journal.Advance` | fs/ext4_journal.cpp:46-64 | a slot is written unless the journal file has a hole there, and the head moves on round the ring |
| `Ext4Journal.Journal.StartTransaction` | fs/ext4_journal.cpp:74-78 | forgets what is pending and counts the sequence up, modulo 2^32 |
| `Ext4Journal.Journal.CommitTransaction` | fs/ext4_journal.cpp:97-143 | n pending writes take n + 2 successive slots, which then hold a descriptor block, the data in order and a commit block, the two with magic, kind and sequence number readable field by field; outside the log the disk is as if the writes had gone straight through in order; an empty transaction does nothing |
| `Ext4Journal.HeaderReads` | fs/ext4_journal.cpp:103-131 | a descriptor or commit block starts with 0xC03B3998, lowest byte first, then its kind and the sequence number, highest byte first, and is zero behind |
| `Ext4Journal.Journal.LogBlock` | fs/ext4_journal.cpp:80-95 | disk plus pending writes, outside the log, gains this write, also when a full transaction is committed first; sequence and head move only then |
| `Ext4Journal.Run` | fs/ext4_journal.cpp:59-143 | for every sequence of logged writes and commits, with the automatic split at 16, the home blocks after the last commit equal writing straight through in order |
| `Ext4Journal.StartLosesNothing` | fs/ext4_journal.cpp:74-78 | starting a transaction loses nothing, whatever the disk holds, if and only if nothing is pending |
| `Ext4Journal.ReadFresh` | fs/ext4_journal.cpp:80-95 | a read from disk gives the last written contents of a block, whatever the disk holds, if and only if no write to it is pending |
| `Ext4Pending.ScanSame` | fs/ext4_vfs.cpp:989-1008 | what the search for a free block finds depends only on the bitmaps and counts on the disk |
| `Ext4Pending.Allocate` | fs/ext4_vfs.cpp:989-1033 | with the journal on, returns the lowest clear bit of the first group that claims a free block and has one; with the pending writes, the group's bitmap then has that bit more than on the disk and no other change, its descriptor a 16-bit count lower by one and no other change, and no other block changes; the disk shows the change at once exactly if 15 writes were pending |
| `Ext4Pending.ScanExact` | fs/ext4_vfs.cpp:989-1008 | the search finds nothing exactly if no group with a positive count has a clear bit; all bits below the one it finds are set, and no earlier group qualifies |
| `Ext4Pending.MarkedAt` | fs/ext4_vfs.cpp:1011-1013 | setting a bit of a bitmap byte changes that bit alone |
| `Ext4Pending.AllocateTwice` | fs/ext4_vfs.cpp:989-1033 | two allocations in a row return different results if and only if a commit lies between them, the caller's or the automatic one; otherwise both return the same block |
| `Fat32.ChainDistinct` | fs/fat32_vfs.cpp:57-64 | a chain that reaches an end mark never visits a cluster twice |
| `Fat32.ExtendChain` | fs/fat32_vfs.cpp:174-178 | linking a fresh cluster behind the last one makes the old chain plus that cluster |
| `Fat32.ExtendOther` | fs/fat32_vfs.cpp:174-178 | every other chain is unchanged and still disjoint |
| `Fat32.ExtendKeeps` | fs/fat32_vfs.cpp:174-178 | after an extension the file still has a chain if and only if a cluster was found; with none left the code links to 0 |
| `Fat32.Fat.AllocateCluster` | fs/fat32_vfs.cpp:76-95 | marks and returns the first free entry; returns 0 if none is, changing nothing; succeeds if and only if one is free and entry 0 is not |
| `Fat32.Fat.SetNextCluster` | fs/fat32_vfs.cpp:66-74 | changes that entry alone |
| `Fat32.Fat.StepOrExtend` | fs/fat32_vfs.cpp:173-179 | one step along a file's chain, extending it by a fresh cluster at its end |
| `Fat32.Fat.WalkTo` | fs/fat32_vfs.cpp:169-180 | while clusters remain, reaching cluster number n extends the chain just as far as needed with fresh clusters, its old clusters first, and leaves all other chains alone |
| `Fat32.Fat.FreeClusterChain` | fs/fat32_vfs.cpp:540-558 | ends on every table whose entries are in range, cycles included, and only ever frees entries; a chain is freed exactly |
| `Fat32.FilesFree` | fs/fat32_vfs.cpp:540-558 | freeing one file keeps all other chains |
| `Fat32.CreateFile` | fs/fat32_vfs.cpp:482-488 | takes one cluster for a new file, or fails cleanly when none is free |
| `Fat32.GrowFile` | fs/fat32_vfs.cpp:161-180 | gives the file exactly the clusters it lacks, as long as there are so many |
| `Fat32.DeleteFile` | fs/fat32_vfs.cpp:574-582 | gives all clusters of the file back |
| `Fat32.RoomNeeded` | fs/fat32_vfs.cpp:161-180 | and no way of giving it those clusters does with fewer free ones, the other files keeping theirs |
| `Fat32.Run` | fs/fat32_vfs.cpp:57-558 | over every run of creations, growing writes and deletions in which each write finds the clusters its file still lacks, counting those freed before, all chains stay acyclic and pairwise disjoint, lengths and free clusters are what the operations ask for, a file no operation names keeps its chain, and no cluster is lost or invented |
| `KeonFs.PackOne` | scripts/pack_keonfs.py:43-73 | one file: padding to a multiple of 4, header, data, and where it ends; refused only if a name or number does not fit |
| `KeonFs.Pack` | scripts/pack_keonfs.py:29-80 | writes superblock, headers and padded data; fails exactly if a name is not ASCII or the total size reaches 2^32 |
| `KeonFs.FindAll` | scripts/pack_keonfs.py:52-79 | in the image each header is where the link before it points and each file's data where its header says |
| `KeonFs.HeaderFields` | include/fs/ramfs.h:37-45 | the fields of a packed header read back, the name up to its terminating 0 |
| `KeonFs.MountNode.AddChild` | fs/ramfs_vfs.cpp:36-47 | adds a child, or panics with 128 already there |
| `KeonFs.MountNode.Mount` | include/fs/ramfs_vfs.h:51-83 | a bad magic number panics; a packed image of at most 128 files gives all of them back in order, and one of more files panics; whatever the memory holds, a mounted node has at most 128 files and each passed the 32-bit test of its end |
| `KeonFs.CheckedInside` | include/fs/ramfs_vfs.h:73-75 | a file that passed that test lies inside the image if and only if offset plus size does not wrap at 2^32 |
| `KeonFs.MountNode.Finddir` | fs/ramfs_vfs.cpp:61-69 | the first child with the name, and nothing exactly if none has it |
| `KeonFs.ReadFile` | fs/ramfs_vfs.cpp:50-58 | copies the bytes from the offset on, as many as the length check allows |
| `KeonFs.RoundTrip` | scripts/pack_keonfs.py:29-80 | packing at most 128 files with distinct ASCII names of at most 63 characters, mounting the image, looking a name up and reading gives the packed bytes back |
| `KeonFs.FindFile` | fs/ramfs_vfs.cpp:61-69 | looking a name up in a mounted image finds the first file stored under it |
| `KeonFs.FullNameFound` | scripts/pack_keonfs.py:54-54 | looking a file up by its full name finds nothing if and only if the name has more than 63 characters, and that file if and only if it has at most 63 and no earlier file has the same first 63 |
| `KeonFs.Reachable` | scripts/pack_keonfs.py:54-54 | a file can be reached by some name if and only if no earlier file has the same first 63 characters |
| `KeonFs.LongNamesClash` | scripts/pack_keonfs.py:54-54 | two names of 64 letters that differ in the last one: neither is found, and the second file cannot be reached |

## Left out

- Inode allocation: the inode bitmap is handled by the same code as the block bitmap, with other field names.
- `Ext4Directory::mkdir` beyond the new directory's first block: it reports success even when the parent has no room for the entry.
- Hash-tree directories, growing an extent tree beyond the inode, and journal recovery: the code does not have them.
- Crash atomicity of the journal: home blocks are written before the commit block and nothing replays the log.
- ext4 with the journal on: files and directories are modelled in write-through mode; `Ext4Journal` and `Ext4Pending` model the journal and block allocation through it, with the journal file's extents fixed.
- Group descriptor and inode serialisation: counts and inodes are values, not bytes in their disk blocks; two open handles of one file with diverging copies of its inode are not modelled.
- Widths of the ext4 free counts: they are unbounded integers here, 16 and 32 bits in the code.
- ext4 block size 65536: a record that fills such a block has no 16-bit length; directories are modelled below it, with a size that is a whole number of blocks.
- Bytes of a fresh ext4 block beside the data written to it: the code leaves what the disk held, and files with holes are described as far as their mapped bytes go.
- FAT32 directories, long names, file data and the behaviour on a full disk: the code leaves the last unfinished; what one extension does then is in `Fat32.ExtendKeeps`.
- TLB flushes, spinlocks, interrupts, context switches and stacks: every locked region is one atomic step.
- `paging_create_address_space`, `paging_identity_map`, `paging_make_kernel_user_accessible` and the `mapped_pages` counter; one address space is modelled.
- Memory-map entries whose address plus length overflows 64 bits.
- `VMM::allocate`, `VMM::free` and `map_physical_region`: they appear in the heap only as bytes between the blocks and the break.
- Thread records' own memory, user stacks and images, and lookups by name; user memory is shared at fixed addresses, so no isolation is claimed.
- The i386 port, drivers other than the timer, the shell, the loader and the VFS path code.
- Vmm.Vmm.Sbrk: the available frames are a number and mapping is not part of it; with page tables, which take frames of their own and whose failure the code ignores, the same loop is `Growth.MapBreaks`.
- Heap.Heap.Grow: growth brings pages that are mapped to frames of their own and zeroes none that is in use; that holds while `Growth.CanGrow` does and every page fits (`Growth.GrownAt`), and what an allocation zeroes otherwise is in `Paging.AllocZeroes`.
- Heap.Run: a run that moves the break around the end of the address space is left out; the kernel lies at the start of the top 2 GiB.
- Frames.FrameAllocator.FromMultiboot: the boot information is a value; the code fills the bitmap behind the kernel image before its second and third pass read the boot information, which is destroyed if it lies there.
- Paging.AddressSpace.Init: the boot loader's tables are taken to map every frame at its window; the 1 MiB that `paging_map_page` maps at 0xffffffffc0000000 goes into those tables and is left out; a missing table, for which the code writes through a null pointer, ends the model's call.
- Paging.AddressSpace.MapEntry: the code's own accesses are taken to pass the RW and NX bits of the windows.
- Heap.Heap.Kmalloc: requests above 2^64 - 4128 and at most 2^64 - 32, for which growth comes out as no page (`Heap.GrowthVanishes`) and the code would write a header above the break, are left out.
- Scheduler.Scheduler.constructor: both first records are taken to exist; the code goes on without an idle thread when its record cannot be allocated.
- Scheduler.Scheduler.Block: stands for the callers that set the running thread BLOCKED and yield.
- Ext4Tree.ExtentGetBlock: a tree whose depth does not fall on the way down, on which the code need not end, is left out.
- Ext4Dir.Directory.Readdir: what a name of more than 135 bytes overwrites behind the caller's record is not modelled.
- Ext4Dir.Directory.Create: inode allocation and the new inode's contents are a parameter; corrupt blocks with a record length of 0, where the code stops, are left out.
- Fat32.Run: a write that does not find the clusters its file lacks is left out; `Fat32.ExtendKeeps` says what becomes of its chain.
- Fat32.Fat.FreeClusterChain: a table with entries outside itself, where the code reads past the table, is left out.
- KeonFs.MountNode.Mount: memory is total; what a reader of a broken image finds outside it is not constrained.
