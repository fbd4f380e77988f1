# Memory management and scheduling of a small x86 kernel

This project models the x86 part of the kernel under `Kernel/`: two-level paging and its virtual-page allocators, the physical block bitmap, per-process address spaces, the ELF loader and its undoing, the process ring with its timer tick, the message queues, and the two copying kernels (16-byte block copy and clipped surface copy). It proves what these parts promise each other.

## How it is built

Machine words are integers below 2^32 with bitwise operators written out (`Bits.dfy`). Memory is 2^20 frames of 1024 words (`PhysicalMemory.dfy`), so page tables, directories, the kernel's arrays and the bytes of programs lie in one memory, and every store of the kernel may hit any of them. The processor is `Paging.Walk`: the translation of 32-bit paging (Intel SDM Volume 3A, section 4.3) read from that memory.

Each imperative part of the source appears twice: as a class whose methods update memory, bitmap, ring or list in place with the source's loops and branches, and as functions on values that say what the methods leave behind. The methods are proved equal to the functions, and the properties are proved about the functions.

| module | what it models |
|---|---|
| `Bits`, `PageEntry` | words, page-table and directory entries |
| `PhysicalMemory`, `PhysicalAllocator` | memory; the block bitmap, its search and runs of allocate and free |
| `Paging`, `RunAllocator` | the kernel's tables, mapping, translation; its run allocator over whole runs |
| `AddressSpace`, `CreateSpace`, `Isolation`, `Anchors` | process directories, how they are made and when, that none reaches into another, and which operation lets a space lose a table |
| `ProcessAllocator`, `MallocRuns` | the process page allocator and SysMemalloc, and runs of calls |
| `ElfLoader`, `ProgramPages`, `ProgramImages`, `ProgramEnd` | loading segments, which pages a program maps, whole programs, and freeing the blocks under a program's pages |
| `ProgramRuns`, `ProgramSafety` | programs over their whole lives: loading, SysMemalloc and ending in any order; what becomes of their blocks and of their images |
| `LostTable` | a run from boot in which SysMemalloc takes live pages away |
| `VirtualMemory`, `ProgramLoader` | the imperative paging code and the imperative loader |
| `SchedulerModel`, `RoundRobinTiming`, `SchedulerRuns`, `Schedulers` | tick, lock, exact timing, invariants over runs, and the linked ring itself |
| `KernelRuns` | memory and scheduler together |
| `Messages`, `Lists` | message queues, and the doubly linked list that carries them |
| `BlockCopy`, `Blit` | memcpy_optimized over its assembly loops, and the surface copy |

## Repairs, and what the code does not do

Read for intent, as neighbouring lines show it:

- The directory index shifts by 22 (`paging.h:12` says 2, `entry.asm:14` 22).
- `paging.cpp:84` increments the counter, as line 44 does; `paging.cpp:120` frees `virt + i * PAGE_SIZE`, as `scheduler.cpp:294` addresses pages.
- `remove_at` (`list.h:126-134`) ends behind its guard; the model unlinks the node, which is what `scheduler.cpp:108` needs. `add_back` (`list.h:47-63`) does not clear the links of its node; the model starts from cleared nodes, as line 69 does.
- `MarkMemoryRegionUsed` (`pyhsicalallocator.cpp:52-55`) clears bits and `MarkMemoryRegionFree` has no body; neither is modelled. Runs start from a bitmap in which block 0 and the kernel's own frames are marked.

Kept as they are, with lemmas that say what follows:

- The frame masks leave bit 31 out. A mapping is exact for the processor unless a stale bit 31 survives, and exact for the kernel's own translation only below 2 GiB (`MapEntryIs`, `FramesDiffer`).
- The process allocator seeds its cursor with page 64 but scans from page 0. A claim for n pages starts on page 64 when the first n + 2 pages are absent, and otherwise on the present page before the first n + 2 absent ones (`UserRunIs`). While pages 0 to 63 are absent, as they are in every usual program just loaded, repeated SysMemalloc calls for up to 62 pages return the address 0x40000 again and again, each with new blocks under it (`SmallCallsRepeat`, `FirstCallsOfProgram`). Once page 0 is present claims collide if and only if the present page they start on belongs to somebody (`ClaimCollidesOnCursor`); `ClaimIsFresh` says for every padded state whether a claim does.
- The loader maps memsz / 4096 + 2 pages for a segment, whatever its address. A segment near the end of its first page can fill the last of them (`FullSegment`: 4098 bytes at 0x08048FFF), and the next claim then starts on it and SysMemalloc puts another block under it. Claims miss the bytes of every segment exactly when each one leaves its last mapped page free (`ClaimsNeverOverlap`, `SegmentEndIsReturned`). Addresses are not required to be page aligned anywhere.
- The padding page of one segment is often the first page of the next, as with text at 0x08048000 and data at 0x08049F08. A page mapped for two segments of a program gets two blocks. The byte pages of the earlier segment that are mapped again are lost, so a program is loaded whole if and only if no later segment maps a page with bytes of an earlier one (`LoadElfWholeExactly`; the order in the file decides, `FileOrderMatters`). And the first of the two blocks is in no table any more: EndProcess never gives it back, although it counts the page down twice (`EndLeaks`).
- The process allocator points directory entries at the address of the table minus 0xC0000000, which is not where a process's table is. SysMemalloc's own mapping corrects the tables of the pages it maps, but not the table of the last padding page when that is another one (`MallocDirectory`). A table full of live pages is lost the same way: `MallocSpares` says exactly which addresses outside the claimed run are translated as before, and `LivePagesLost` is a run from boot, one LoadELF and one claim of a page, in which a whole loaded segment is gone. Such a space is not isolated any more; all other operations keep every space on its own tables (`OperationAnchors`).
- CreateAddressSpace marks the 768 user directory entries present, writable and accessible to user mode, without a frame (`CreateIs`); mapping a page leaves the user bit of its own entry as it was (`MapEntryIs`). Until something is mapped the processor therefore reads frame 0 as the page table (`NewSpaceReadsFrameZero`).
- EndProcess translates through the kernel's tables, which every later load overwrites. It returns the program's own blocks exactly when the program maps no page twice and no program loaded later has mapped one of its pages (`EndGivesBack`). Otherwise it can free blocks of a program that still runs: a program loaded twice whose first copy ends loses every block under the second (`SecondCopyLosesBlocks`), and the next program loaded overwrites a byte the second copy still sees (`RunningByteGone`). An exit is harmless if and only if no page of the program leads, in the kernel's tables, to a block of the kernel, of an address space or of another running program (`EndKept`).
- Freeing block 0 makes all later allocations fail (`FreeingBlockZeroStopsAllocation`).
- The kernel allocator's `amount + 1` wraps for 2^32 - 1 (`LargestAmountReservesNothing`).
- The exit system call leaves the scheduler lock taken (`ExitLeavesLockHeld`).
- The block copy of fewer than 16 bytes runs its loop 2^32 times (`MemcpyOptimized`); the surface copy therefore works exactly for clipped rows of at least four pixels, or when no row is visited (`CopyWindowSurface`).
- SysCopyWindoSurfac looks at the offset argument to decide whether there is a region argument; the model does the same.
- RemoveProcessFromQueue never moves the head, so the head (the idle process) must not end; its contract requires that, and `EveryRun` shows that the idle process stays the head.

## Model

| member | source | states |
|---|---|---|
| PageEntry.MapEntryIs | Kernel/src/arch/x86/paging.cpp:137-143 | Setting flags and frame of an entry: bits 0 and 1, present and writable, are set and bits 2 to 11 as before; the processor reads the mapped frame if and only if no stale bit 31 is left over an address below 2 GiB, and the kernel reads it back if and only if the address is below 2 GiB |
| PageEntry.SetWritableIs | Kernel/include/arch/x86/paging.h:91-93 | Present, writable and user are bits 0, 1 and 2: setting the first two, or all three, sets those bits and changes no other |
| PageEntry.GetFrameIs | Kernel/include/arch/x86/paging.h:52-54 | The frame the kernel reads from an entry is bits 12 to 30 |
| PageEntry.SetFrameIs | Kernel/include/arch/x86/paging.h:48-50 | Storing an address replaces bits 12 to 30, merges bit 31 and keeps the flags of a page-aligned address |
| PageEntry.SetFlagsIs | Kernel/include/arch/x86/paging.h:91-93 | Setting flags leaves the frame alone and sets present for odd masks |
| PageEntry.ClearFlagsIs | Kernel/include/arch/x86/paging.h:95-97 | Clearing present and writable clears bits 0 and 1 and changes no other bit, so the entry is absent and keeps its frame |
| PageEntry.FramesDiffer | Kernel/include/arch/x86/paging.h:30-54 | The kernel's and the processor's reading of an entry differ exactly by bit 31 |
| PhysicalMemory.WriteByteReads | Kernel/src/arch/x86/scheduler.cpp:246-247 | A byte stored into word-addressed memory changes that byte and no other |
| PhysicalAllocator.Allocator.BitSet | Kernel/src/arch/x86/pyhsicalallocator.cpp:32-34 | Adds exactly one block to the taken ones, through shift and or |
| PhysicalAllocator.Allocator.BitClear | Kernel/src/arch/x86/pyhsicalallocator.cpp:37-39 | Removes exactly one block from the taken ones |
| PhysicalAllocator.Allocator.GetFirstFreeMemoryBlock | Kernel/src/arch/x86/pyhsicalallocator.cpp:41-49 | The search that skips full dwords finds the least clear bit of the whole bitmap, and 0 when there is none |
| PhysicalAllocator.TakenDeterminesBitmap | Kernel/src/arch/x86/pyhsicalallocator.cpp:10 | Bitmap and set of taken blocks determine each other, so equal sets mean equal dwords |
| PhysicalAllocator.Allocator.AllocatePhysicalMemoryBlock | Kernel/src/arch/x86/pyhsicalallocator.cpp:58-67 | Takes the least free block and counts it; 0 and nothing changed on failure |
| PhysicalAllocator.Allocator.FreePhysicalMemoryBlock | Kernel/src/arch/x86/pyhsicalallocator.cpp:70-74 | Gives back the block of an address and counts down modulo 2^32 |
| PhysicalAllocator.AllocationFails | Kernel/src/arch/x86/pyhsicalallocator.cpp:58-61 | An allocation fails if and only if everything is taken or block 0 is marked free |
| PhysicalAllocator.FreeingBlockZeroStopsAllocation | Kernel/src/arch/x86/pyhsicalallocator.cpp:59-61 | After block 0 is freed every allocation fails, whatever else is free |
| PhysicalAllocator.RunKeepsAccounts | Kernel/src/arch/x86/pyhsicalallocator.cpp:31-74 | Over every run that frees only held blocks: held blocks are distinct, nonzero and exactly the taken ones beyond the reserved, and the counter minus the number of set bits never changes modulo 2^32 |
| PhysicalAllocator.AllocateAfterRun | Kernel/src/arch/x86/pyhsicalallocator.cpp:58-67 | After any such run an allocation gives a block nobody holds, page aligned, nonzero, at most 2^32 - 4096, or fails with every block taken |
| PhysicalAllocator.AllocateThenFree | Kernel/src/arch/x86/pyhsicalallocator.cpp:58-74 | Freeing what was just allocated restores bitmap and counter |
| Paging.WalkIsTables | Kernel/src/arch/x86/paging.cpp:108-116 | While the directory is linked to the tables the kernel writes, the processor's walk is a lookup in those tables |
| Paging.MapReaches | Kernel/src/arch/x86/paging.cpp:125-146 | After MapVirtualPages the processor's walk and the kernel's translation send every address of the n pages to its place in the n frames, also across the end of the address space, and both entries of the walk are present and writable |
| Paging.MapSpares | Kernel/src/arch/x86/paging.cpp:125-146 | Every address outside those pages is translated as before, by both |
| Paging.StoreLongReads | Kernel/src/arch/x86/syscall.cpp:241-242 | A 32-bit store through a page directory succeeds if and only if all four addresses are mapped; the bytes where the walk leads them then add up to the word, least significant first, also across pages, and no other byte changes |
| Paging.MapPagesIs | Kernel/src/arch/x86/paging.cpp:131-143 | All 2^20 entries after the mapping loop: n of them changed, each to its own frame |
| Paging.MapPagesLinked | Kernel/src/arch/x86/paging.cpp:141-143 | Mapping keeps every directory entry pointing at the table the kernel writes |
| RunAllocator.ScanFindsFirst | Kernel/src/arch/x86/paging.cpp:76-86 | The scan with cursor and counter finds the first free run, and fails only when there is none |
| RunAllocator.KernelAllocateReserves | Kernel/src/arch/x86/paging.cpp:68-106 | Fails if and only if no n + 1 consecutive kernel pages are absent; otherwise the n returned pages were absent, are present and writable, no address overflows, and nothing but bits 0 and 1 of the entries of the marked run has changed |
| RunAllocator.FreePagesFreed | Kernel/src/arch/x86/paging.cpp:118-123 | Freeing clears bits 0 and 1 of the entries of exactly the n pages, also across the end of the address space, and changes nothing else |
| RunAllocator.LargestAmountReservesNothing | Kernel/src/arch/x86/paging.cpp:74 | For 2^32 - 1 pages the padding wraps: the call succeeds having touched nothing but the page below the address it returns |
| RunAllocator.HeapStaysConsistent | Kernel/src/arch/x86/paging.cpp:68-123 | Under every run of reservations, releases and mappings the ranges handed out stay disjoint, in range and present |
| AddressSpace.UserMapReaches | Kernel/src/arch/x86/paging.cpp:149-172 | After mapping into a process directory the processor's walk of that directory sends every address of the pages to its place, through entries that are present and writable |
| AddressSpace.UserWritable | Kernel/src/arch/x86/paging.cpp:252-254 | In a sound space the processor may write at a user address if and only if bits 0 and 1 of its page's entry are set, because every directory entry is writable, whatever was done to the space |
| AddressSpace.MapUserPagesIs | Kernel/src/arch/x86/paging.cpp:154-169 | All user entries of the space after the loop: n changed, each reached through a linked table, the others as they were |
| AddressSpace.MapUserPagesKeeps | Kernel/src/arch/x86/paging.cpp:149-172 | Mapping into one space keeps the kernel's tables and every frame that is not a frame of that space |
| AddressSpace.UserWalk | Kernel/src/arch/x86/paging.cpp:160-168 | The walk of a process directory below 0xC0000000 is the entry the kernel wrote if its table is linked, and otherwise the word at that index of whatever frame the directory entry names |
| AddressSpace.KernelHalf | Kernel/src/arch/x86/paging.cpp:238-242 | The walk from 0xC0000000 up is the kernel's own tables for every sound space |
| CreateSpace.CreateIs | Kernel/src/arch/x86/paging.cpp:227-259 | With enough free blocks a new space is sound and lives in frames that were free; its tables are zero, its 768 user directory entries hold the flags present, writable and user and nothing else, those above the kernel's tables with present and writable; nothing that was there changes |
| CreateSpace.CreateReturns | Kernel/src/arch/x86/paging.cpp:227-251 | CreateAddressSpace returns if and only if there are 2 absent kernel pages in a row, and 769 once the directory is made |
| CreateSpace.CreateFits | Kernel/src/arch/x86/paging.cpp:227-251 | 771 absent kernel pages in a row at the start are enough, and the tables then lie within the first of them that fit |
| CreateSpace.NewSpaceReadsFrameZero | Kernel/src/arch/x86/paging.cpp:252-256 | In a new space a user address faults if and only if the word it selects in physical frame 0 is not present |
| Anchors.SpacesAreIsolated | Kernel/src/arch/x86/paging.cpp:149-259 | From a system without spaces, after any run of creations, mappings and SysMemalloc calls that take no table away: whatever is done for other spaces from there on, a space nobody acts on translates every user address as before |
| Anchors.OperationAnchors | Kernel/src/arch/x86/paging.cpp:149-259 | If every directory entry of every space leads to its own table or to frame 0, an operation keeps it so, for a new space too, if and only if it is no SysMemalloc call that takes a table away: a condition on the state before it |
| Anchors.MemallocAnchors | Kernel/src/arch/x86/syscall.cpp:232-245 | Which entries SysMemalloc leaves so: not that of a table that holds only padding, unless the number written for it is that of its frame or 0; that of a table with a returned page always; every other as before |
| Anchors.WithoutMemalloc | Kernel/src/arch/x86/paging.cpp:149-259 | Runs without SysMemalloc take no table away |
| Isolation.AnchoredIsIsolated | Kernel/src/arch/x86/paging.cpp:149-259 | Address by address, over every run of operations: where the directory of a space nobody acts on leads an address to its own table or to frame 0, the translation stays |
| Isolation.PerformConsistent | Kernel/src/arch/x86/paging.cpp:149-259 | Every operation, SysMemalloc among them, keeps the spaces sound and their frames disjoint |
| Isolation.SharedHalf | Kernel/src/arch/x86/paging.cpp:238-242 | In every system that a run of operations reaches, every space translates the addresses from 0xC0000000 up as the kernel's directory does |
| ProcessAllocator.ClaimIsFresh | Kernel/src/arch/x86/paging.cpp:29-66 | A claim collides with pages already claimed if and only if the scan finds its run at the bottom of the address space and the pages from 64 on are claimed |
| ProcessAllocator.ClaimAfterPresent | Kernel/src/arch/x86/paging.cpp:36-61 | Behind the first present page a claim takes the present page under its cursor and n + 1 absent ones, and fails exactly when no n + 2 absent pages follow |
| ProcessAllocator.UserRunIs | Kernel/src/arch/x86/paging.cpp:29-66 | Where a claim for n pages starts, without the scan: on page 64 if the first n + 2 pages are absent, else on the present page before the first n + 2 absent ones; nowhere exactly when there is no such page |
| ProcessAllocator.AllocateUserIs | Kernel/src/arch/x86/paging.cpp:29-66 | AllocateVirtualPages from any sound space: where it starts, said of the pages present before; bits 0 and 1 of the n + 2 entries of the run are set, the directory entries of their tables hold the frame number of the table minus 0xC0000, and nothing else of the space changes |
| ProcessAllocator.ClaimCollidesOnCursor | Kernel/src/arch/x86/paging.cpp:29-66 | With page 0 present, over every run of claims and segment loads, the next claim meets pages of an earlier claim or bytes of a segment if and only if the present page before the first n + 2 absent ones is such a page |
| ProcessAllocator.ClaimsNeverOverlap | Kernel/src/arch/x86/paging.cpp:29-66 | And it meets none as long as every segment leaves its last mapped page free |
| ProcessAllocator.SegmentEndIsReturned | Kernel/src/arch/x86/scheduler.cpp:234 | Only such segments are safe: behind any segment loaded after the present pages the next claim starts on its last mapped page, and collides if and only if that page holds bytes of it |
| ProcessAllocator.FullSegment | Kernel/src/arch/x86/scheduler.cpp:234 | 4098 bytes at 0x08048FFF fill their last mapped page |
| ProcessAllocator.SmallClaimsRepeat | Kernel/src/arch/x86/paging.cpp:30-37 | With pages 0 to 63 absent, two claims in a row for at most 62 pages each both return page 64 |
| ProcessAllocator.MallocIs | Kernel/src/arch/x86/syscall.cpp:232-245 | From any sound space with n free blocks, however often it was called before: SysMemalloc starts where a claim starts, fails when there is no such page, and leaves the space sound, every page of the range on a block that was free, present and writable with its other flags kept, the padding present and writable and otherwise unchanged, every other page as it was, and each directory entry as the two steps in turn aimed it |
| ProcessAllocator.MallocBacks | Kernel/src/arch/x86/syscall.cpp:232-245 | Every page returned translates, in the walk of the process's own directory, to a block that was free and may be written, different pages to different blocks |
| ProcessAllocator.MallocPages | Kernel/src/arch/x86/syscall.cpp:235 | The returned range starts on a present page and goes on with absent ones, unless the first n + 2 pages are absent: then it starts on page 64 |
| ProcessAllocator.MallocDirectory | Kernel/src/arch/x86/syscall.cpp:235-239 | Which tables are linked afterwards, from the pages present before: one that holds only padding of the run exactly when its frame happens to have the number of its kernel page, one with a returned page always, every other one as before |
| ProcessAllocator.MallocSpares | Kernel/src/arch/x86/syscall.cpp:232-245 | An address outside the marked run whose table was linked translates as before if and only if its table holds other than padding of the run, or the word read instead happens to translate alike |
| LostTable.LivePagesLost | Kernel/src/arch/x86/syscall.cpp:232-245 | From boot, LoadELF of two segments that fill pages 0 to 1022 and 1026 to 1527, then SysMemalloc for one page: the condition for keeping the image fails, and page 1500 of the second segment, outside the range returned, is a page fault afterwards |
| ProcessAllocator.MallocIsClaim | Kernel/src/arch/x86/syscall.cpp:232-245 | In terms of present pages SysMemalloc is one claim |
| MallocRuns.LoadSegmentIsServed | Kernel/src/arch/x86/scheduler.cpp:234-239 | And loading a segment is one segment request, so the theorems about runs of requests apply to both |
| MallocRuns.BytesClaimed | Kernel/src/arch/x86/scheduler.cpp:246-247 | The pages such a request claims are exactly those with a byte of the segment |
| MallocRuns.RunOfCalls | Kernel/src/arch/x86/syscall.cpp:232-245 | Once page 0 is present, over any run of SysMemalloc calls in memory the ranges returned are disjoint and miss the pages claimed before, every page of each stays on the block its own call took, and pages claimed before keep theirs |
| MallocRuns.SmallCallsRepeat | Kernel/src/arch/x86/syscall.cpp:232-245 | While pages 0 to 63 are absent, SysMemalloc calls for at most 62 pages return the address 0x40000 one after another, and the second call puts another block under the page the first one got |
| MallocRuns.FirstCallsOfProgram | Kernel/src/arch/x86/syscall.cpp:232-245 | So do the first two calls of every program that LoadELF has just loaded without a page below 64 |
| ElfLoader.SegmentCovered | Kernel/src/arch/x86/scheduler.cpp:234 | memsz / 4096 + 2 pages cover a segment for every alignment of its address |
| ElfLoader.LoadSegmentHolds | Kernel/src/arch/x86/scheduler.cpp:225-250 | After loading, every byte of the segment stands in the process's image, although written through the kernel's tables |
| ElfLoader.HeldByteIsWalked | Kernel/src/arch/x86/scheduler.cpp:246-247 | Walking the process's directory at vaddr + k gives file byte offset + k below filesz and 0 from there to memsz, and the byte may be written |
| ElfLoader.LoadSegmentKeeps | Kernel/src/arch/x86/scheduler.cpp:234-249 | A load takes exactly memsz / 4096 + 2 free blocks, keeps kernel and spaces sound and touches no other taken frame |
| ProgramPages.PagesCounted | Kernel/src/arch/x86/scheduler.cpp:234 | A program needs a block for every page it maps, and more if and only if it maps a page for two segments |
| ProgramPages.TextBeforeData | Kernel/src/arch/x86/scheduler.cpp:234 | Text at 0x08048000 and data at 0x08049F08 need 4 blocks for 3 pages, and with the text first no page with bytes is mapped again |
| ProgramImages.LoadKeepsImage | Kernel/src/arch/x86/scheduler.cpp:225-250 | Loading a segment keeps every image of other processes, and of an image in the same process every page it does not map |
| ProgramImages.LoadKeepsImageExactly | Kernel/src/arch/x86/scheduler.cpp:225-250 | An image in the same process stays whole if and only if no byte of it lies in a page mapped for the new segment |
| ProgramImages.LoadElfImages | Kernel/src/arch/x86/scheduler.cpp:197-250 | After LoadELF of any segments in the user half the system is consistent, the new process holds every byte on a page not mapped again for a later segment, in the blocks its own load took, and all older images survive |
| ProgramImages.LoadElfWholeExactly | Kernel/src/arch/x86/scheduler.cpp:197-250 | Every segment stands whole in the blocks of its own load if and only if no page with a byte of a segment is mapped for a later one |
| ProgramImages.FileOrderMatters | Kernel/src/arch/x86/scheduler.cpp:221-250 | Text at 0x08048000 before data at 0x08049F08 is loaded whole; with the data first in the file the data is lost |
| ProgramImages.LoadElfPresence | Kernel/src/arch/x86/scheduler.cpp:217-250 | Of a program just loaded exactly the pages mapped for its segments are present, each through a linked table |
| ProgramEnd.LoadAllTakes | Kernel/src/arch/x86/scheduler.cpp:225-239 | The frames a program's pages have in the kernel's tables are blocks its load took, as many as there are pages, and all of them if and only if no page is mapped for two segments |
| ProgramEnd.LoadAllCount | Kernel/src/arch/x86/scheduler.cpp:234-239 | A load takes as many blocks as its segments need, memsz / 4096 + 2 for each that is not empty |
| ProgramRuns.LoadElfLoads | Kernel/src/arch/x86/scheduler.cpp:197-251 | A whole LoadELF, with the address space it makes: in the kernel's tables its pages lead to distinct blocks that were free and that it took, to all of them beside the space if and only if no page is mapped twice, and every other present page leads where it led |
| ProgramRuns.EndGivesBack | Kernel/src/arch/x86/scheduler.cpp:290-297 | Whatever programs were loaded, grew or ended in between, EndProcess gives back exactly the blocks its own load took, as many as its segments need, if and only if the program maps no page twice and no program loaded later has mapped one of its pages |
| ProgramRuns.EndLeaks | Kernel/src/arch/x86/scheduler.cpp:290-297 | Where no later program mapped its pages, the end of a program leaves one block taken for every page it maps twice, counted per extra mapping, and the usage counter keeps its distance to the number of taken blocks if and only if there is none |
| ProgramRuns.EndKept | Kernel/src/arch/x86/scheduler.cpp:290-297 | Ending a program leaves every other program its blocks, and spaces and kernel theirs, if and only if none of its pages leads to one of those |
| ProgramRuns.NotRemappedHurtsNone | Kernel/src/arch/x86/scheduler.cpp:290-297 | Which is so as long as no program loaded later has mapped one of its pages |
| ProgramRuns.StepKept | Kernel/src/arch/x86/scheduler.cpp:197-307 | The invariant of blocks and pages of all programs is kept by every load and every SysMemalloc call, and by exactly those ends that hurt nobody |
| ProgramRuns.RunGivesBack | Kernel/src/arch/x86/scheduler.cpp:197-307 | Conservation over runs of loads, SysMemalloc calls and such ends: every program still running can give back exactly its own blocks if and only if it maps no page twice and no later one has mapped one of its pages |
| ProgramSafety.GrowImagesExactly | Kernel/src/arch/x86/syscall.cpp:232-245 | SysMemalloc keeps the images of the program that calls it if and only if no page with a byte of them is in the returned range, or in a table that holds only padding and whose frame is not the number written for it: a condition on the state before the call |
| ProgramSafety.GrowImagesOthers | Kernel/src/arch/x86/syscall.cpp:232-245 | It always keeps the images of the others |
| ProgramSafety.CarefulStep | Kernel/src/arch/x86/scheduler.cpp:197-307 | A step keeps the invariant and every running program's image if and only if it is no end that hurts somebody and no SysMemalloc call that takes the caller's own pages away |
| ProgramSafety.SecondCopyLosesBlocks | Kernel/src/arch/x86/scheduler.cpp:290-297 | A program loaded twice, the first copy ended: the block under every page of the second copy, which still runs, is free, and none of the first one's own |
| ProgramSafety.RunningByteGone | Kernel/src/arch/x86/scheduler.cpp:197-307 | From any system in which the loads return: load a program, load it again, end the first copy, load any program. For the first byte of any word on the first page of the second copy's first segment, if it was even and no later segment maps that page, the processor still finds the same place and no longer the byte |
| VirtualMemory.Mmu.KernelAllocateVirtualPages | Kernel/src/arch/x86/paging.cpp:68-106 | The nested loops over tables, with cursor, counter and marking: no result if and only if no n + 1 kernel pages in a row are absent; otherwise n absent pages are present and writable, and only the flags of their entries and of the page below are written |
| VirtualMemory.Mmu.VirtualToPhysicalAddress | Kernel/src/arch/x86/paging.cpp:108-116 | Bits 12 to 30 of the entry in the kernel's tables, as an address |
| VirtualMemory.Mmu.FreeVirtualPages | Kernel/src/arch/x86/paging.cpp:118-123 | Clears bits 0 and 1 of the entries of exactly the n pages |
| VirtualMemory.Mmu.MapVirtualPages | Kernel/src/arch/x86/paging.cpp:125-146 | The mapping loop in place: every address of the n pages is sent to its place in the frames and may be written, every other address goes where it went; false and nothing changed for an amount of 0 |
| VirtualMemory.Mmu.MapVirtualPagesInto | Kernel/src/arch/x86/paging.cpp:149-172 | The mapping loop into a process directory, whose tables and directory are themselves reached through the kernel's mappings: the processor's walk of the directory sends every address of the pages to its place and lets it be written; kernel and other frames are kept |
| VirtualMemory.Mmu.AllocateVirtualPages | Kernel/src/arch/x86/paging.cpp:29-66 | The process allocator's loops: where the claim starts, the entries of the run present and writable, and the directory frames it writes |
| VirtualMemory.Mmu.CreateAddressSpace | Kernel/src/arch/x86/paging.cpp:227-259 | Reserving, mapping, clearing and sharing, statement by statement, make the specified space, with enough free blocks a sound and empty one with every directory entry spelt out, and the usage counter follows the bitmap |
| VirtualMemory.Mmu.SysMemalloc | Kernel/src/arch/x86/syscall.cpp:232-245 | Error 1 and no effect when an argument is 0; otherwise claim and page loop leave memory and bitmap as specified, and the bytes where the process's walk leads the second argument and the three addresses behind it add up to the page number times 4096, every other byte as the loop left it; no result exactly when there is no range or one of those four addresses is not mapped then; the usage counter follows the bitmap |
| ProgramLoader.Loader.LoadOneSegment | Kernel/src/arch/x86/scheduler.cpp:234-248 | Page loop, memset and memcpy byte by byte through the kernel's translation load the specified segment: with enough blocks every byte of it stands in the process's image; the usage counter follows the bitmap |
| ProgramLoader.Loader.LoadProgram | Kernel/src/arch/x86/scheduler.cpp:217-251 | Returns a space if and only if there are 2 absent kernel pages in a row, and 769 once the directory is made, for which 771 before are enough; then the new address space and all segments are in place, empty ones skipped; the usage counter follows the bitmap |
| ProgramLoader.Loader.FreeProgramBlocks | Kernel/src/arch/x86/scheduler.cpp:290-297 | The two loops of EndProcess free exactly the frames that the program's pages have in the kernel's tables and count down once for every page, modulo 2^32 |
| SchedulerModel.LockedTicksSwitchNothing | Kernel/src/arch/x86/scheduler.cpp:309-315 | While the lock is held any number of interrupts only run down the current slice |
| SchedulerModel.CreationIsOneStep | Kernel/src/arch/x86/scheduler.cpp:140-195 | With any interrupts between its statements, creating a process is one insertion: same current process, lock restored |
| SchedulerModel.ExitLeavesLockHeld | Kernel/src/arch/x86/syscall.cpp:586-594 | After an exit the next process runs and no interrupt switches away from it until the lock is cleared |
| RoundRobinTiming.RoundRobin | Kernel/src/arch/x86/scheduler.cpp:309-339 | The process k places behind the running one starts after exactly the sum of slice + 1 over those before it; who had a turn has a full slice, nobody else changed |
| RoundRobinTiming.NotBefore | Kernel/src/arch/x86/scheduler.cpp:309-339 | It runs from that tick on for its whole slice, and not before |
| RoundRobinTiming.MarkerRenewsSlice | Kernel/src/arch/x86/scheduler.cpp:316-322 | If the interrupt that ends a turn reads the return address 0xC0000123, the running process gets another full slice and nothing is saved or switched |
| RoundRobinTiming.NewcomerRunsNext | Kernel/src/arch/x86/scheduler.cpp:119-122 | A process created while the head runs starts when the head's slice is over, with the context and directory it was created with |
| RoundRobinTiming.RoundIsWait | Kernel/src/arch/x86/scheduler.cpp:163-164 | A round of full slices takes the sum of default + 1, whoever starts it |
| RoundRobinTiming.FirstRoundSettles | Kernel/src/arch/x86/scheduler.cpp:316 | After one round from any slices every slice is full and the first process runs again |
| RoundRobinTiming.RoundsRepeat | Kernel/src/arch/x86/scheduler.cpp:309-339 | From full slices on every further round takes exactly that sum and changes nothing but saved contexts |
| SchedulerRuns.EveryRun | Kernel/src/arch/x86/scheduler.cpp:111-339 | From boot on, over every run of ticks, creations, exits and lock changes with fewer than 2^32 creations: the running process is on the ring, idle is its head, the ring is exactly the live processes, each once, the lock is as the last lock change left it and clear before the first one, and every dispatch publishes the context last saved and the directory of birth |
| SchedulerRuns.NewcomerFromBoot | Kernel/src/arch/x86/scheduler.cpp:39-52 | From boot, a process created then runs at the second interrupt that does not read the marker, with the context and directory it was created with; idle has been given its slice of 1 again |
| SchedulerRuns.SystemCallSwitchesNothing | Kernel/src/arch/x86/syscall.cpp:586-594 | A system call takes the lock and clears it on return: however many interrupts come in between, the same process runs, nothing is saved or published, and only its slice has run down |
| SchedulerRuns.StepKeeps | Kernel/src/arch/x86/scheduler.cpp:111-339 | Each step keeps that invariant |
| SchedulerRuns.PidsRunOut | Kernel/src/arch/x86/scheduler.cpp:157 | The bound is exact: process number 2^32 gets the pid of idle |
| Schedulers.Scheduler.FindProcessByPID | Kernel/src/arch/x86/scheduler.cpp:74-83 | Goes once round the ring and returns the first process with the pid, null if and only if none has it |
| Schedulers.Scheduler.InsertProcessIntoQueue | Kernel/src/arch/x86/scheduler.cpp:111-126 | Keeps the ring closed and puts the process behind the head; the third branch is never reached |
| Schedulers.Scheduler.RemoveProcessFromQueue | Kernel/src/arch/x86/scheduler.cpp:128-138 | Finds the predecessor of any process but the head and closes the ring without it |
| Schedulers.Scheduler.CreateProcess | Kernel/src/arch/x86/scheduler.cpp:140-195 | A record with slice and default 1, the given entry and stack, no directory and an empty message queue opens behind the head; one creation step of the model; the lock is put back and all message queues are kept |
| Schedulers.Scheduler.QueueProgram | Kernel/src/arch/x86/scheduler.cpp:197-277 | A record with an empty slice, default 15, the given entry, stack and directory and an empty message queue opens behind the head; one creation step of the model; the lock is put back and all message queues are kept |
| Schedulers.Scheduler.Initialize | Kernel/src/arch/x86/scheduler.cpp:39-52 | Leaves the state all runs start from: idle alone on the ring, current, pid 0, slice and default 1, in the kernel's directory and published, the lock clear |
| Schedulers.Scheduler.EndProcess | Kernel/src/arch/x86/scheduler.cpp:280-307 | One exit step: the successor runs and is published; the process's message queue goes, the others are kept |
| Schedulers.Scheduler.Tick | Kernel/src/arch/x86/scheduler.cpp:309-340 | One tick step of the model, on the linked records; no message queue changes |
| Schedulers.Scheduler.SwitchToNext | Kernel/src/arch/x86/scheduler.cpp:333-338 | Moves along the next link and publishes that process's saved registers and directory |
| Schedulers.Scheduler.SendMessage | Kernel/src/arch/x86/scheduler.cpp:85-91 | Appends to the queue of the first process with the receiver's pid; fails and changes nothing if and only if there is none |
| Schedulers.Scheduler.SendMessageTo | Kernel/src/arch/x86/scheduler.cpp:93-97 | Appends to the queue of the given process and no other |
| Schedulers.Scheduler.ReceiveMessage | Kernel/src/arch/x86/scheduler.cpp:99-109 | Takes the oldest message; from an empty queue a message of zeros, and the queue stays empty |
| Messages.FirstInFirstOut | Kernel/src/arch/x86/scheduler.cpp:85-109 | Over every run of sends, receives, creations and ends: what a process had and was sent equals, in order, what it received and still has |
| Messages.StepKeepsOrder | Kernel/src/arch/x86/scheduler.cpp:85-109 | One step keeps that equation, whoever it is about |
| Lists.List.AddBack | Kernel/include/list.h:47-63 | Appends to the sequence and keeps the links mutually inverse |
| Lists.List.AddFront | Kernel/include/list.h:65-83 | Puts an element in front and keeps the links mutually inverse |
| Lists.List.GetAt | Kernel/include/list.h:89-105 | The element at a position, the zero value outside |
| Lists.List.ReplaceAt | Kernel/include/list.h:107-120 | Replaces one element; nothing outside the list |
| Lists.List.Clear | Kernel/include/list.h:33-45 | Empties the list; the nodes given back are all but the last |
| Lists.List.RemoveAt | Kernel/include/list.h:126-134 | Removes and returns one element; the zero value and no change outside |
| BlockCopy.CopyBlocks | Kernel/src/arch/x86/sse2.asm:8-18 | The decrement-and-test loop copies count blocks, 2^32 for a count of 0, and stops where an access leaves the buffers |
| BlockCopy.MemcpyOptimized | Kernel/src/arch/x86/sse2.cpp:9-22 | Equals a byte copy and changes nothing else if and only if count is at least 16, aligned or not; below that everything that fits is overwritten |
| Blit.CopyWindowSurface | Kernel/src/arch/x86/syscall.cpp:386-411 | Status codes; status 0 if and only if no row is visited or region and destination leave rows of at least 4 pixels. Then destination pixel (offset.x + dx, offset.y + i) is window pixel (pos.x + dx, i) for every dx below the width and every i from pos.y to the height of the region, as far as the destination reaches, without arguments the whole window at the origin; every other pixel and byte is unchanged |
| Blit.RowBlitted | Kernel/src/arch/x86/syscall.cpp:407-408 | One row covers the pixels of one more window row and spills into no other |
| KernelRuns.RunningProgramSeesItself | Kernel/src/arch/x86/scheduler.cpp:197-339 | Over every run of program loads, process creations, exits, SysMemalloc calls, interrupts and lock changes in which every exit hurts nobody and no program takes its own pages away: the directory published for the running program leads every byte of its segments, but on pages its own later segments took over, to the byte of its file, or to zero behind it, and lets it be written |
| KernelRuns.LaunchedRunsNext | Kernel/src/arch/x86/scheduler.cpp:197-339 | A program launched while idle runs with the lock clear, whose load returns, is what runs once idle's slice is over: the processor gets its entry point, its stack and a directory through which it finds its image |
| KernelRuns.ExitGivesBack | Kernel/src/arch/x86/scheduler.cpp:280-307 | An exit in the whole system: the process and no other leaves the ring, and exactly the blocks its load took are free again if and only if no later program has mapped one of its pages and it maps no page twice |
| KernelRuns.StepSane | Kernel/src/arch/x86/scheduler.cpp:197-339 | Memory, ring and images stay consistent with each other in exactly those steps |
| KernelRuns.BootSane | Kernel/src/arch/x86/scheduler.cpp:39-52 | The state at boot satisfies that invariant |

## Left out

- The kernel's own arrays (tables, directory) are taken to lie at the fixed mapping of the kernel image, physical address = address - 0xC0000000; building that mapping at boot (`paging.cpp:174-201`) is not modelled.
- TLB, CR3 loads and caches: a walk reads memory as it is, and switching directories between the kernel's and a process's has no state beyond the published directory.
- "No more pages" loops for ever in the source; operations return None there.
- The file buffer of LoadELF: a segment carries its bytes; parsing the ELF header is not modelled. ELF files whose filesz exceeds memsz, or whose segments reach 0xC0000000, are outside `Program`.
- User mappings from 0xC0000000 up: the 768 tables of a process end there, and the source indexes behind them.
- Stacks (`scheduler.cpp:178-186`, `265-272`): their top address is a parameter; the pages are never given back in the source, nor are the frames of an address space.
- `kmalloc` and `kfree`: records and list nodes are fresh objects; what the heap does with freed ones is not modelled.
- Closing file descriptors, process priorities and states, and threads beyond the first.
- A process record holds its message queue as the sequence that a list represents; `Lists` proves that representation for the list on its own.
- List lengths are unbounded numbers; 2^32 nodes do not fit the kernel's memory.
- KernelRuns.RunningProgramSeesItself: what programs write into their own memory is not among its events, nor is the address SysMemalloc stores through its second argument (`VirtualMemory.Mmu.SysMemalloc` has it), nor stacks and kernel reservations. The condition on exits and calls is exact for each step (`StepSane`); a run with a step that breaks it may still end well, when the freed blocks are not handed out again.
- Schedulers.Scheduler.RemoveProcessFromQueue: requires that the head is not removed, because the source leaves the head pointer on the removed record.
- Blit.CopyWindowSurface: surfaces of 2 GiB and more, whose offsets overflow an int, negative offsets and regions outside the window are excluded; the source does not check them.
- BlockCopy.MemcpyOptimized: overlapping buffers are excluded.
- Exhausted physical memory: the methods do what the source does (frame 0 is mapped), but spaces and images are proved with enough free blocks.
- FindHandle, window lists, and the other system calls; device drivers, descriptor tables and interrupt entry.
- The multiboot memory map and region marking: a run starts from any bitmap with the reserved blocks marked.
