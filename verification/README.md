# Kernel model

A Dafny model of a small 32-bit teaching kernel and of two pieces of the Bochs emulator that is vendored with it, with
proofs of what their code is for. Each component has a specification, written as functions on a state value with
lemmas about single steps and whole runs, and a class with the fields, loops and in-place updates of the source, every
method of which is proved to compute a step of the specification.

| files | component |
|---|---|
| Counting, Frames, AddressSpaces, Paging, PagingEffects, CopyOnWrite, ForkStores; class in Mmu | physical frames, page tables, copy-on-write |
| Arena, HeapEffects; classes in Bitmap, KernelHeap | page map, kmalloc and kfree |
| LinkedList | the doubly linked list with sentinels |
| Scheduler; class in TaskTable | scheduling, sleeping, the clock interrupt |
| ProcessTree; class in ProcessTable | fork, exit, waitpid |
| Elevator | the disk request queue |
| Fifo, Pipe | the byte ring and pipes |
| Locks | mutex and reentrant lock |
| BufferCache, BufferCounts; class in BufferPool | the block cache |
| Zones, MinixFile; class in MinixVolume | zone maps, bmap, inode_read, inode_write |
| Timers; class in PcSystem | Bochs virtual-time timers |
| Bytes, Crc | Bochs CRC-32 |
| Lists | lists without repetition, shared by the heap, the cache and the scheduler |

A panic or a failed assertion of the source that a caller can provoke sets a flag (`halted`, `full`) after which nothing
more happens; assertions that must hold are proved to hold. Time, the device contents, the choices of processes, of the
scheduler and of timer callbacks are parameters of the steps, so the lemmas about runs hold for all of them.

Where the code does not do what its comments or tests suggest, the model follows the code, gives the failing case, and
states the condition under which the code is right: mapping over a shared page (`CopyOnWrite.MmapExact`), requests
within 15 bytes of 2^32 (`Arena.PagesExact`), wake-up times on both sides of 2^31 (`Scheduler.SleepExact`), deadlines
that wrap 64 bits when a timer is armed (`Timers.ArmExact`) or re-armed (`Timers.AdvanceExact`), the last seven logical
blocks of a file (`Zones.SlotExact`), a write past the end of a file (`MinixFile.WholeExact`), a new file system with
several zone-map blocks (`Zones.FormattedExact`), a nesting count that wraps 32 bits (`Locks.NestingExact`).

## Model

| member | source | states |
|---|---|---|
| `Frames.LinkPage` | src/kernel/memory.c:277-292 | keeps the frame accounting (each count is the number of page and directory entries naming the frame, free pages are the zero counts, tables are named once) and copy-on-write; a mapped page is left alone, an unmapped one gets a private writable frame; the kernel panics exactly when fewer frames are free than the missing table and page need |
| `Frames.UnlinkPage` | src/kernel/memory.c:295-315 | keeps the accounting and copy-on-write; the page is gone afterwards and nothing else is |
| `Frames.EnsureTable` | src/kernel/memory.c:246-264 | an address gets a page table that nothing else names; the kernel panics exactly when the table is missing and no frame is free |
| `Frames.NoFrame` | src/kernel/memory.c:148-160 | the search of get_page fails exactly when free_pages is zero |
| `Frames.OnlyReference` | src/kernel/memory.c:407-411 | a frame of count one is named by one page entry and by no directory entry |
| `Frames.ShareBase` | src/kernel/memory.c:333-365 | sharing a frame with a child keeps the counts exact |
| `Frames.CopyAtBase` | src/kernel/memory.c:317-331 | breaking copy-on-write with a fresh frame keeps the counts exact |
| `Frames.CountBound` | src/kernel/memory.c:353-358 | in every state that satisfies the accounting no count exceeds the number of address spaces, at most 64: the 8-bit count never wraps and the assertion below 255 never fails |
| `AddressSpaces.Fork` | src/kernel/memory.c:333-365 | after copy_pde every page of the parent is found at the same address in the child, with the same bytes and frame, frozen unless shared; other spaces are untouched; the accounting and copy-on-write hold |
| `AddressSpaces.ForkFlags` | src/kernel/memory.c:344-358 | flag by flag: after a fork that does not panic a shared page keeps all its flags in parent and child, a private one keeps all but the write flag, which is cleared in both; every other space keeps its flags |
| `AddressSpaces.ForkDir` | src/kernel/memory.c:340-362 | one directory entry of the copy: all its pages are mirrored in the child |
| `AddressSpaces.ForkHalts` | src/kernel/memory.c:333-365 | fork panics exactly when fewer frames are free than the parent has page tables; otherwise it takes one frame for each |
| `AddressSpaces.Exit` | src/kernel/memory.c:495-525 | the address space has no page and no table left, all other spaces keep theirs, the accounting holds |
| `AddressSpaces.ExitDirExits` | src/kernel/memory.c:505-518 | cutting one directory entry after the others removes exactly the pages below it |
| `Paging.FlagsCow` | src/kernel/memory.c:398-419 | setting the flags of an entry keeps copy-on-write exactly when the frame is not counted more than once, or the shared mark is kept and no private write permission is given |
| `Paging.WriteFault` | src/kernel/memory.c:398-419 | panics exactly when the page is shared or read-only, or needs a copy while no frame is free; otherwise the entry is writable afterwards and the page has its old bytes; all other private pages are as before and copy-on-write holds |
| `Paging.Fault` | src/kernel/memory.c:381-428 | kills the process exactly for an address outside the user area and panics exactly when the write is refused, the frames do not suffice, or the address lies between the break and the stack; otherwise the entry is writable, a page that was present keeps its bytes, and every other private page of every process is as before |
| `Paging.UserWrite` | src/kernel/memory.c:381-428 | a surviving user store changes exactly its byte of its page as its process sees it, and no private page of any other process; it panics exactly when the page may not be written and the fault panics |
| `Paging.UserRead` | src/kernel/memory.c:421-427 | after a surviving user load the page is mapped and every other page, of this process and of others, is as before; a load of a mapped page changes nothing |
| `Paging.Brk` | src/kernel/memory.c:430-453 | panics exactly for an address out of range or unaligned, answers -1 exactly when more pages are asked for than are free, and then changes nothing; lowering the break unmaps exactly the pages above it, raising it maps nothing; all other pages stay |
| `Paging.BrkCovers` | src/kernel/memory.c:438-444 | the pages given back are exactly those from the new break up to the one that holds the last byte below the old break |
| `Paging.MmapPageCow` | src/kernel/memory.c:546-562 | mapping one page keeps copy-on-write exactly when it is not a private page whose frame is still counted more than once, or neither write permission nor sharing is asked for |
| `Paging.Mmap` | src/kernel/memory.c:527-566 | when it does not panic, every page it covers is mapped with the permissions asked for, and the pages of others are kept whatever was mapped before |
| `Paging.MmapHalts` | src/kernel/memory.c:527-566 | mmap panics exactly when there is no place, the pages run past the end of the window, or fewer frames are free than the missing pages and page tables need |
| `Paging.Munmap` | src/kernel/memory.c:568-584 | exactly the pages of the range are gone; the accounting, copy-on-write and the private pages of others are kept |
| `Paging.LoadPage` | src/kernel/execve.c:211-245 | the page is mapped afterwards, read-only where the segment is, with its flags kept otherwise; no other page changes; it panics exactly for a page outside the image area or for want of frames |
| `PagingEffects.LinkedEntry` | src/kernel/memory.c:277-292 | the entry that link_page makes is writable and neither shared, private-marked nor read-only |
| `PagingEffects.WriteFaultExact` | src/kernel/memory.c:398-419 | a count of one gives the page write permission in place; otherwise the page moves to a free frame with the same bytes, the old frame has one reference less, and the new entry is writable and unmarked; nothing else changes |
| `PagingEffects.FaultFlags` | src/kernel/memory.c:381-428 | after a fault that the process survives the entry is writable and neither shared nor read-only |
| `PagingEffects.FaultRange` | src/kernel/memory.c:392-427 | the process is killed exactly below 0x1000000 and from 0x10000000 on; an absent page between the break and the stack is a panic, and so is, for an absent page elsewhere, only the want of frames |
| `PagingEffects.BrkExact` | src/kernel/memory.c:430-453 | panics exactly for a break that is unaligned, below the program or not below 0x8000000, answers -1 exactly for want of frames; otherwise exactly the pages from the new break up to the old one are gone |
| `PagingEffects.PageCountExact` | src/kernel/memory.c:530 | the least number of pages that holds the length, as long as rounding up stays below 2^32 |
| `PagingEffects.PlaceFirst` | src/kernel/memory.c:533-536 | mmap(0, ..) takes the lowest place in the window where enough consecutive pages are unused, so none of its pages was in use |
| `PagingEffects.PlaceFixed` | src/kernel/memory.c:532-537 | an address that is given is taken as it is, whatever the map says |
| `PagingEffects.MmapPageExact` | src/kernel/memory.c:538-560 | one page of the mapping: its bit is set, write and read-only are as asked for, the sharing marks are those asked for and those the page had |
| `PagingEffects.MmapEffect` | src/kernel/memory.c:527-566 | mmap that does not panic maps and marks exactly its range, adds exactly its bits to the window map, and touches no other page of any process |
| `PagingEffects.MunmapEffect` | src/kernel/memory.c:568-584 | munmap panics exactly for an address that is unaligned or outside the window, or a page whose bit is clear; otherwise exactly the range is unmapped and exactly its bits are cleared |
| `ForkStores.ReachableTidy` | src/kernel/memory.c:333-566 | in every reachable state no page is writable and read-only at once |
| `ForkStores.ForkThenStore` | src/kernel/memory.c:398-419 | a private page the parent could write before the fork can be written after it by parent and by child while one frame is free: the store does not panic and the writer finds its byte |
| `ForkStores.ForkThenStoreShared` | src/kernel/memory.c:354-356 | a shared page the parent could write is written in place by both, without a fault or a frame |
| `CopyOnWrite.LayoutExact` | src/kernel/tasks.c:234-243 | a new address space has no page and an unused window, with program end and break at 16 MiB; moving the end of the image moves nothing else |
| `CopyOnWrite.ReachableCounts` | src/kernel/memory.c:148-177 | in every state reachable by fork, exit, stores, loads, brk, mmap, munmap and program loading, every count is the number of entries naming the frame, none above 64, and free pages are the frames without any |
| `CopyOnWrite.NothingLeaks` | src/kernel/memory.c:495-525 | when no process is left no user frame is in use |
| `CopyOnWrite.MmapExact` | src/kernel/memory.c:527-566 | mmap keeps copy-on-write exactly when every page it covers meets that condition |
| `CopyOnWrite.RemapLeaks` | src/kernel/memory.c:546-562 | the failing case: a page is mapped again after a fork for which the frames suffice, neither call panics, and what the parent then writes appears in the child |
| `CopyOnWrite.LeakReachable` | src/kernel/memory.c:546-562 | the same on a run from boot, on every machine with at least three user frames: whatever byte the parent stores is in the private page of the child |
| `CopyOnWrite.UnsafeTears` | src/kernel/memory.c:546-562 | for every remapping that breaks the condition there is another page that shares the frame while this one is privately writable |
| `CopyOnWrite.StepIsolated` | src/kernel/memory.c:398-419 | one action of one process leaves all private pages of the others as they were |
| `CopyOnWrite.RunIsolated` | src/kernel/memory.c:333-419 | over any run with sound mmaps what a process finds in its private pages changes only by its own actions |
| `CopyOnWrite.ForkSameBytes` | src/kernel/memory.c:333-365 | right after fork parent and child find the same bytes everywhere |
| `CopyOnWrite.ForkThenWrite` | src/kernel/memory.c:398-419 | after fork a store by either side is invisible to the other on private pages |
| `Mmu.MemoryManager.constructor` | src/kernel/memory.c:129-146 | the state after the kernel has claimed its frames satisfies the accounting |
| `Mmu.MemoryManager.GetPage` | src/kernel/memory.c:148-160 | takes the first free frame, or panics |
| `Mmu.MemoryManager.PutPage` | src/kernel/memory.c:162-177 | drops one reference; free pages grow exactly when it was the last |
| `Mmu.MemoryManager.GetTable` | src/kernel/memory.c:246-264 | refines EnsureTable |
| `Mmu.MemoryManager.LinkPage` | src/kernel/memory.c:277-292 | refines LinkPage |
| `Mmu.MemoryManager.UnlinkPage` | src/kernel/memory.c:295-315 | refines UnlinkPage |
| `Mmu.MemoryManager.SharePage` | src/kernel/memory.c:345-360 | refines the sharing of one page |
| `Mmu.MemoryManager.CopyPde` | src/kernel/memory.c:333-365 | the nested loops compute the whole fork of the address space |
| `Mmu.MemoryManager.Fork` | src/kernel/memory.c:333-365 | task_fork's memory part refines Fork |
| `Mmu.MemoryManager.FreePde` | src/kernel/memory.c:495-525 | the nested loops compute the whole exit of the address space |
| `Mmu.MemoryManager.WriteFault` | src/kernel/memory.c:398-419 | refines WriteFault |
| `Mmu.MemoryManager.PageFault` | src/kernel/memory.c:381-428 | refines Fault |
| `Mmu.MemoryManager.StoreByte` | src/kernel/memory.c:381-428 | a user store with its fault and retry refines UserWrite |
| `Mmu.MemoryManager.SysBrk` | src/kernel/memory.c:430-453 | refines Brk with its answer |
| `Mmu.MemoryManager.SysMmap` | src/kernel/memory.c:527-566 | refines Mmap with the address it returns |
| `Mmu.MemoryManager.SysMunmap` | src/kernel/memory.c:568-584 | refines Munmap |
| `Bitmaps.FirstRun` | src/lib/bitmap.c:49-72 | first fit: a clear run of the asked length starts there and none starts before |
| `Bitmaps.ReleaseUndoesClaim` | src/kernel/memory.c:458-492 | claiming and releasing a run restores the map bit for bit |
| `Bitmaps.SetBit` | src/lib/bitmap.c:32-46 | setting a bit of a byte changes that bit only |
| `Bitmaps.ClearBit` | src/lib/bitmap.c:32-46 | clearing a bit of a byte changes that bit only |
| `Bitmaps.BitsOfUpdate` | src/lib/bitmap.c:32-46 | a byte write that replaces one bit is an update of the bit sequence at one place |
| `Bitmaps.Bitmap.Test` | src/lib/bitmap.c:20-29 | reads the bit of the sequence |
| `Bitmaps.Bitmap.Set` | src/lib/bitmap.c:32-46 | updates the bit of the sequence |
| `Bitmaps.Bitmap.FindRun` | src/lib/bitmap.c:49-63 | the counter loop finds the first fit |
| `Bitmaps.Bitmap.Scan` | src/lib/bitmap.c:49-72 | claims exactly the first fit, or changes nothing |
| `Arena.BlockInPage` | src/kernel/arena.c:23-32 | a block lies between the header and the end of its page, and masking its address gives its arena |
| `Arena.DescFor` | src/kernel/arena.c:54-59 | the chosen size class is the smallest that holds the request |
| `Arena.PagesExact` | src/kernel/arena.c:41-44 | the page count is the fewest pages that hold the request and its header exactly when rounding up does not overflow 32 bits; which sizes yield no page and which a single one |
| `Arena.KmallocInv` | src/kernel/arena.c:36-83 | keeps the heap invariant and hands out an address that was not handed out, with room for the request; the answer is a panic exactly when the heap halts |
| `Arena.KmallocPanics` | src/kernel/arena.c:36-83 | kmalloc panics exactly when a large request needs no page in 32-bit arithmetic or no run of pages is free, or a small one finds neither a free block nor a free page |
| `Arena.KmallocWraps` | src/kernel/arena.c:41-51 | the sizes within 15 of 2^32 get one page, which breaks the invariant |
| `Arena.RefillSlots` | src/kernel/arena.c:61-76 | a new arena has all its blocks on the free list, each once, and no other list changes |
| `Arena.KfreeInv` | src/kernel/arena.c:85-106 | keeps the heap invariant and takes exactly the freed block away |
| `Arena.PurgeInv` | src/kernel/arena.c:96-104 | when the last block returns, the arena, its list entries and its page go, and nothing else |
| `Arena.Inside` | src/kernel/arena.c:23-32 | a handed-out block is at least as large as asked, behind its header and inside its arena |
| `Arena.LiveApart` | src/kernel/arena.c:36-83 | handed-out blocks, small and large, do not overlap |
| `Arena.HeadersSafe` | src/kernel/arena.c:23-28 | no handed-out block overlaps any header |
| `Arena.FreeInside` | src/kernel/arena.c:67-76 | a free block, which holds its list node, lies in its arena behind the header |
| `Arena.FreeApartFromLive` | src/kernel/arena.c:67-76 | a free block overlaps no block that is handed out |
| `Arena.FreeApart` | src/kernel/arena.c:67-76 | free blocks do not overlap each other |
| `Arena.FreeHeadersSafe` | src/kernel/arena.c:67-76 | a free block overlaps no header |
| `Arena.PagesMarked` | src/kernel/memory.c:458-466 | every byte handed out lies in a page marked used that was free at the start |
| `Arena.ArenaHasLive` | src/kernel/arena.c:94-104 | every arena that exists has a block handed out |
| `Arena.Conservation` | src/kernel/arena.c:85-106 | when nothing is handed out no arena exists, the lists are empty and the page map is the initial one |
| `Arena.RunConserves` | src/kernel/arena.c:36-106 | whatever is allocated and freed in whatever order, once all is freed the heap equals its initial state |
| `HeapEffects.Sizes` | src/kernel/arena.c:11-20 | block sizes double from 16 to 1024 and a page holds as many blocks as fit behind its header |
| `HeapEffects.TakesListed` | src/kernel/arena.c:54-82 | with a free block of the smallest class that fits, kmalloc hands out the one listed last, and only its list and its arena change |
| `HeapEffects.TakesPage` | src/kernel/arena.c:61-82 | with none free, the first free page becomes an arena, its last block is handed out and the others are listed from the last to the first |
| `HeapEffects.TakesRun` | src/kernel/arena.c:41-52 | a large request takes the first run of free pages that is as long as needed and returns the address behind the header |
| `HeapEffects.FreesBlock` | src/kernel/arena.c:93-95 | kfree of a block whose arena has others handed out puts it in front of its free list |
| `HeapEffects.FreesPage` | src/kernel/arena.c:96-104 | kfree of the last one gives the page back and takes exactly its blocks off the free list |
| `HeapEffects.FreesRun` | src/kernel/arena.c:91-92 | kfree of a large block clears exactly its pages |
| `HeapEffects.FreeThenTake` | src/kernel/arena.c:36-106 | kfree and then kmalloc of the same size class return the same block and restore the heap |
| `KernelHeap.KernelHeap.constructor` | src/kernel/arena.c:11-20 | the initial heap over a map with reserved pages |
| `KernelHeap.KernelHeap.AllocKpage` | src/kernel/memory.c:458-487 | claims the first fit of pages, or panics |
| `KernelHeap.KernelHeap.FreeKpage` | src/kernel/memory.c:469-492 | clears the pages, each of which was marked |
| `KernelHeap.KernelHeap.RefillList` | src/kernel/arena.c:61-76 | refines the refill |
| `KernelHeap.KernelHeap.Allocate` | src/kernel/arena.c:36-83 | refines kmalloc for every 32-bit size and keeps the invariant up to 16 below 2^32 |
| `KernelHeap.KernelHeap.Release` | src/kernel/arena.c:85-106 | refines kfree and keeps the invariant |
| `KernelHeap.KernelHeap.DropPage` | src/kernel/arena.c:96-104 | the removal loop empties the free list of the arena's blocks |
| `LinkedList.Place` | src/lib/list.c:103-115 | the place before the first greater key, else the end |
| `LinkedList.InsertKeepsSorted` | src/lib/list.c:103-122 | sorted insertion keeps the order and puts equal keys behind the earlier ones |
| `LinkedList.List.InsertBefore` | src/lib/list.c:15-20 | the pointer writes insert the node at its place in the chain |
| `LinkedList.List.InsertAfter` | src/lib/list.c:23-28 | the pointer writes insert the node behind its anchor |
| `LinkedList.List.Remove` | src/lib/list.c:75-82 | the node leaves the chain with null pointers |
| `LinkedList.List.Push` | src/lib/list.c:31-34 | in front |
| `LinkedList.List.Pop` | src/lib/list.c:37-44 | the front node, detached |
| `LinkedList.List.PushBack` | src/lib/list.c:47-50 | at the end |
| `LinkedList.List.PopBack` | src/lib/list.c:53-60 | the last node, detached |
| `LinkedList.List.Search` | src/lib/list.c:63-72 | true exactly for a node of the list |
| `LinkedList.List.Empty` | src/lib/list.c:85-88 | true exactly for the empty list |
| `LinkedList.List.Size` | src/lib/list.c:91-100 | the number of nodes |
| `LinkedList.List.InsertSort` | src/lib/list.c:103-122 | the node goes to the place of its key |
| `Timers.ArmExact` | bochs/bochs-2.6.11/pc_system.cc:473-505 | arming a timer keeps the invariant (the countdown is positive and every active deadline is ahead) exactly when the deadline fits 64 bits |
| `Timers.ArmMisses` | bochs/bochs-2.6.11/pc_system.cc:473-505 | the failing case at arming: a deadline that wraps lies in the past |
| `Timers.AdvanceExact` | bochs/bochs-2.6.11/pc_system.cc:349-374 | the sweep of an event keeps the invariant exactly when no continuous timer that is due gets a next deadline past 64 bits |
| `Timers.RearmMisses` | bochs/bochs-2.6.11/pc_system.cc:356-360 | the failing case at re-arming: a timer armed within 64 bits whose next deadline wraps into the past when it fires |
| `Timers.MinIsLeast` | bochs/bochs-2.6.11/pc_system.cc:331-367 | the sweep's minimum is below every active deadline |
| `Timers.NarrowingExact` | bochs/bochs-2.6.11/pc_system.cc:370-374 | unless a due timer's next deadline wraps, the narrowing to 32 bits loses nothing and is never zero |
| `Timers.EventInv` | bochs/bochs-2.6.11/pc_system.cc:321-385 | an event in which neither the sweep nor a callback sets a deadline that wraps leaves a positive countdown and all active deadlines ahead |
| `Timers.OpExact` | bochs/bochs-2.6.11/pc_system.cc:473-505 | a call made by a callback keeps the invariant exactly when it arms no timer past 64 bits |
| `Timers.RegisterInv` | bochs/bochs-2.6.11/pc_system.cc:261-319 | registration keeps the invariant exactly when it is refused, the timer is inactive, or its deadline fits 64 bits |
| `Timers.RegisterSlot` | bochs/bochs-2.6.11/pc_system.cc:261-319 | it is refused exactly when 64 timers are registered; otherwise the first unused slot from 1 on, or a new one, is in use with its callback installed, active and continuous as asked, period max(1, ticks), deadline now plus that period in 64 bits; no other timer changes |
| `Timers.RegisteredFires` | bochs/bochs-2.6.11/pc_system.cc:261-384 | from registration on: an active timer that callbacks leave alone fires exactly at now + p, when one-shot, and exactly at now + p, now + 2p, and so on, when continuous, with p = max(1, ticks) |
| `Timers.ArmSlot` | bochs/bochs-2.6.11/pc_system.cc:473-505 | arming sets active, the period max(1, ticks), the deadline and the mode of its timer; disarming clears its active flag; no other timer changes |
| `Timers.ActivatedFires` | bochs/bochs-2.6.11/pc_system.cc:473-505 | from arming on: the same firing times |
| `Timers.LastCall` | bochs/bochs-2.6.11/pc_system.cc:376-384 | of several calls by a callback on one timer the last decides; a timer that no call names is unchanged |
| `Timers.StoppedSilent` | bochs/bochs-2.6.11/pc_system.cc:339-343 | an inactive timer that callbacks leave alone does not fire |
| `Timers.UnregisterSlot` | bochs/bochs-2.6.11/pc_system.cc:574-602 | refused exactly for an active timer; otherwise the slot is free again, with everything reset, the next registration finds it or an earlier one, and no other timer changes |
| `Timers.UnregisterInv` | bochs/bochs-2.6.11/pc_system.cc:574-602 | unregistration keeps the invariant and is refused for an active timer |
| `Timers.Ticks` | bochs/bochs-2.6.11/pc_system.h:106-110 | n ticks without a deadline that wraps keep the invariant and advance the time by exactly n |
| `Timers.TickN` | bochs/bochs-2.6.11/pc_system.h:111-121 | tickn(n) is n times tick1: same state, same ordered firing log, and the invariant holds |
| `Timers.TickNJoin` | bochs/bochs-2.6.11/pc_system.h:111-121 | tickn(a) then tickn(b) is tickn(a + b) |
| `Timers.FitsBelow` | bochs/bochs-2.6.11/pc_system.cc:356-360 | below 2^63 ticks, with no period above 2^63, no deadline wraps |
| `Timers.Tick1View` | bochs/bochs-2.6.11/pc_system.cc:321-385 | one tick of the countdown machine is one tick of the machine that looks at every deadline each tick |
| `Timers.TickNView` | bochs/bochs-2.6.11/pc_system.cc:321-385 | after n ticks timers and firing log are those of n naive ticks |
| `Timers.TickFires` | bochs/bochs-2.6.11/pc_system.cc:349-384 | the timers that fire in a tick are those due at it, in slot order |
| `Timers.NoDrift` | bochs/bochs-2.6.11/pc_system.cc:356-360 | a continuous timer left alone fires at d, d + p, d + 2p, and so on, and at no other time |
| `Timers.FiresOnce` | bochs/bochs-2.6.11/pc_system.cc:353-355 | a one-shot timer left alone fires once, at its deadline |
| `Timers.StartInv` | bochs/bochs-2.6.11/pc_system.cc:41-76 | at the start the invariant holds, the null timer alone is armed, and the first timer to be registered gets slot 1 |
| `Timers.ReachablePunctual` | bochs/bochs-2.6.11/pc_system.cc:344-348 | over every run in which no deadline wraps no active deadline has passed (the debug panic is unreachable) and the next tick fires exactly what it reaches |
| `PcSystem.PcSystem.constructor` | bochs/bochs-2.6.11/pc_system.cc:41-76 | the null timer alone, armed |
| `PcSystem.PcSystem.TimeTicks` | bochs/bochs-2.6.11/pc_system.h:130-133 | reads the current time |
| `PcSystem.PcSystem.ActivateTimerTicks` | bochs/bochs-2.6.11/pc_system.cc:473-505 | refines arming |
| `PcSystem.PcSystem.Deactivate` | bochs/bochs-2.6.11/pc_system.cc:562-572 | refines disarming |
| `PcSystem.PcSystem.RegisterTimerTicks` | bochs/bochs-2.6.11/pc_system.cc:261-319 | refines registration with the number returned |
| `PcSystem.PcSystem.Unregister` | bochs/bochs-2.6.11/pc_system.cc:574-602 | refines unregistration |
| `PcSystem.PcSystem.SweepDue` | bochs/bochs-2.6.11/pc_system.cc:337-368 | the first loop computes the sweep, the marks and the minimum, with the panic condition asserted false |
| `PcSystem.PcSystem.RunCallbacks` | bochs/bochs-2.6.11/pc_system.cc:376-384 | the second loop from first to last runs the callbacks of all marked timers in order |
| `PcSystem.PcSystem.CountdownEvent` | bochs/bochs-2.6.11/pc_system.cc:321-385 | refines the event |
| `PcSystem.PcSystem.Tick1` | bochs/bochs-2.6.11/pc_system.h:106-110 | refines one tick and keeps the invariant while no deadline wraps |
| `PcSystem.PcSystem.TickN` | bochs/bochs-2.6.11/pc_system.h:111-121 | refines n ticks and keeps the invariant while no deadline wraps |
| `Scheduler.Search` | src/kernel/tasks.c:28-45 | a ready task other than the current one, or none exactly when there is none |
| `Scheduler.SearchPrefers` | src/kernel/tasks.c:36-41 | no later ready task has more of its slice left or has run longer ago than the one found, which has more left or has run longer ago than the choice among the earlier ones |
| `Scheduler.BestFound` | src/kernel/tasks.c:28-45 | a ready task that no other equals or surpasses in slice left and time since its last tick is found wherever it stands in the table |
| `Scheduler.ScheduleExact` | src/kernel/tasks.c:133-155 | schedule() runs the task the search prefers whenever another task is ready, else idle; the task that leaves is ready again if it was running, its slice refilled to the priority if used up; nothing else changes |
| `Scheduler.TickExact` | src/kernel/clock.c:43-57 | an interrupt advances jiffies, notes it in the running task and shortens its slice by one; at the end of the slice the task leaves |
| `Scheduler.UnblockExact` | src/kernel/tasks.c:74-79 | the one task is ready and off its list, the others keep their order |
| `Scheduler.OtherActions` | src/kernel/tasks.c:53-72 | blocking and yielding are schedule() by a task that may leave; unblocking makes one task ready |
| `Scheduler.NextReady` | src/kernel/tasks.c:133-155 | schedule() always switches to a ready task, so it never takes a sleeper off the list |
| `Scheduler.ScheduleInv` | src/kernel/tasks.c:133-155 | keeps the invariant and every sleeper |
| `Scheduler.WeakupExact` | src/kernel/tasks.c:102-121 | the early break wakes exactly those whose time has come; the rest lie ahead |
| `Scheduler.ClockWakes` | src/kernel/clock.c:43-57 | an interrupt ends a sleep exactly when jiffies is the target |
| `Scheduler.PlaceInOrder` | src/lib/list.c:103-122 | inserting by the signed key keeps the order of times exactly when the new one is on the others' side of 2^31 |
| `Scheduler.SleepExact` | src/kernel/tasks.c:81-100 | task_sleep keeps the invariant exactly when the target neither wraps nor straddles 2^31 |
| `Scheduler.StraddleOversleeps` | src/kernel/tasks.c:81-121 | the failing case: after task_sleep across 2^31 the earlier task sleeps on through every clock interrupt until the later one's target |
| `Scheduler.WrapWakesAtOnce` | src/kernel/tasks.c:84-97 | the failing case of a target past 2^32: the next clock interrupt ends the sleep |
| `Scheduler.OnlyTheClockWakes` | src/kernel/tasks.c:102-121 | no action but the interrupt at its target changes a sleeper |
| `Scheduler.WokenOnTime` | src/kernel/tasks.c:81-121 | over any run a sleeper sleeps until exactly the interrupt that finds jiffies at its target |
| `Scheduler.SleepLasts` | src/kernel/tasks.c:84-93 | a sleep of ms lasts max(1, ms/10) full interrupts and the next one ends it |
| `TaskTable.TaskTable.TaskSearch` | src/kernel/tasks.c:28-45 | the loop computes the search with idle as fallback |
| `TaskTable.TaskTable.Schedule` | src/kernel/tasks.c:133-155 | refines schedule() |
| `TaskTable.TaskTable.TaskUnblock` | src/kernel/tasks.c:74-79 | refines task_unblock |
| `TaskTable.TaskTable.FindPlace` | src/lib/list.c:103-115 | the loop finds the place of the key |
| `TaskTable.TaskTable.TaskSleep` | src/kernel/tasks.c:81-100 | refines task_sleep; the invariant holds afterwards exactly when the target neither wraps nor straddles 2^31 |
| `TaskTable.TaskTable.TaskWeakup` | src/kernel/tasks.c:102-121 | the loop computes the wake-ups |
| `TaskTable.TaskTable.ClockHandler` | src/kernel/clock.c:43-57 | refines the interrupt |
| `ProcessTree.Scan` | src/kernel/tasks.c:418-438 | the first dead child of the caller that matches, or whether any child matches |
| `ProcessTree.ForkInv` | src/kernel/tasks.c:321-366 | fork keeps the invariant |
| `ProcessTree.ForkExact` | src/kernel/tasks.c:321-366 | fork panics exactly when no slot is empty; otherwise exactly the first empty slot changes, to a ready task that is not waiting, has the caller as parent and is new |
| `ProcessTree.ForkThenWait` | src/kernel/tasks.c:321-443 | after fork waitpid for the child blocks, and waitpid for any child does not fail |
| `ProcessTree.ExitExact` | src/kernel/tasks.c:368-410 | exit: the caller is dead with its status, its children have its parent, the parent is ready exactly if it was waiting for the caller or for anybody; nothing else changes |
| `ProcessTree.WaitReaps` | src/kernel/tasks.c:431-453 | the first dead child asked for leaves the table, its status is returned, nothing else changes |
| `ProcessTree.WaitElse` | src/kernel/tasks.c:439-446 | otherwise the caller blocks exactly if it has a child it asks for, and nothing else changes |
| `ProcessTree.LeaveExact` | src/kernel/tasks.c:53-72 | a running task that gives way is ready again, or blocked, and nothing else changes |
| `ProcessTree.WakeExact` | src/kernel/tasks.c:74-79 | a wake-up makes a blocked task ready and not one that waits for a child; a ready task is run only when no other runs |
| `ProcessTree.ExitInv` | src/kernel/tasks.c:368-410 | exit with reparenting and wake-up keeps the invariant |
| `ProcessTree.ExitParent` | src/kernel/tasks.c:393-408 | the parent that waits for the exiting task is woken; one that waits for another child is not disturbed by the inherited ones |
| `ProcessTree.ReapInv` | src/kernel/tasks.c:431-435 | reaping keeps the invariant |
| `ProcessTree.NoReapInv` | src/kernel/tasks.c:439-443 | blocking or failing in waitpid keeps the invariant |
| `ProcessTree.PassOutcome` | src/kernel/tasks.c:413-453 | a pass reaps exactly when a match is dead and blocks exactly when one lives and none is dead |
| `ProcessTree.WokenReaps` | src/kernel/tasks.c:439-443 | a woken waiter always finds a dead match: waitpid never blocks twice |
| `ProcessTree.ZombieReapable` | src/kernel/tasks.c:419-435 | a dead task has a living parent, which can reap it by pid or by -1 |
| `ProcessTree.Reachable` | src/kernel/tasks.c:321-453 | over every run parents live, waiters have a living match and no dead one, and each exit is a zombie or was reaped once with its status |
| `ProcessTable.ProcessTable.GetFreeTask` | src/kernel/tasks.c:157-169 | the first free slot |
| `ProcessTable.ProcessTable.TaskFork` | src/kernel/tasks.c:321-366 | refines fork |
| `ProcessTable.ProcessTable.TaskExit` | src/kernel/tasks.c:368-410 | the reparenting loop and the wake-up refine exit |
| `ProcessTable.ProcessTable.ScanChildren` | src/kernel/tasks.c:418-438 | the loop computes the scan |
| `ProcessTable.ProcessTable.TaskWaitpid` | src/kernel/tasks.c:413-453 | refines one pass with pid and status |
| `Elevator.NextReq` | src/kernel/device.c:124-142 | none exactly when the finished request was alone, else the neighbour in the direction in force |
| `Elevator.SubmitInv` | src/kernel/device.c:144-168 | a new request keeps the list sorted with exactly one request in service |
| `Elevator.FinishList` | src/kernel/device.c:170-180 | the successor is the neighbour, it had a task to wake, and the rest stays |
| `Elevator.FinishInv` | src/kernel/device.c:170-180 | finishing keeps the invariant |
| `Elevator.TurnExact` | src/kernel/device.c:126-130 | at a turn every request still queued lies on the other side of the one just served, and without a turn one is left that is not behind |
| `Elevator.Reachable` | src/kernel/device.c:124-180 | over every run the list is sorted with one request in service, between turns the sectors go one way, and a turn comes only when no sector is left ahead |
| `Elevator.AtMostOneTurn` | src/kernel/device.c:124-180 | while a request waits the elevator turns at most once |
| `Elevator.Device.Enter` | src/kernel/device.c:144-168 | refines the first half of device_request |
| `Elevator.Device.NextRequest` | src/kernel/device.c:124-142 | refines request_nextreq with the turn |
| `Elevator.Device.Leave` | src/kernel/device.c:170-180 | refines the second half |
| `Fifo.FullEmpty` | src/lib/fifo.c:18-27 | the two tests mean length - 1 and 0 bytes held |
| `Fifo.Fifo.Get` | src/lib/fifo.c:29-35 | takes the oldest byte |
| `Fifo.Fifo.Put` | src/lib/fifo.c:37-46 | appends; a full ring loses its oldest byte; on a ring of one cell the assertion of fifo_get fails |
| `Pipe.ApplyInv` | src/fs/pipe.c:13-47 | every pass keeps the invariant |
| `Pipe.Reachable` | src/fs/pipe.c:13-47 | over every interleaving read, in flight and unwritten bytes are what was sent, at most length - 1 are in flight, nothing is discarded, no get on empty, never both blocked |
| `Pipe.AssertionsChecked` | src/fs/pipe.c:16-40 | in any state, reachable or not, the failure flag is set exactly by a side that would block where one is blocked already and by a read that goes on with an empty ring |
| `Pipe.BlocksExactly` | src/fs/pipe.c:16-39 | a side blocks exactly on an empty or a full ring |
| `Pipe.BlockedIsWoken` | src/fs/pipe.c:22-45 | the next byte moved by the other side wakes a blocked one, which then moves a byte |
| `Pipe.OneCellDeadlock` | src/lib/fifo.c:18-22 | the failing case: a ring of one cell blocks both sides |
| `Pipe.PipeInode.Read` | src/fs/pipe.c:13-29 | refines a pass of pipe_read, its assertions hold |
| `Pipe.PipeInode.Write` | src/fs/pipe.c:31-47 | refines a pass of pipe_write, its assertions hold |
| `Locks.MutexUnlockInv` | src/kernel/mutex.c:23-37 | unlocking keeps the invariant |
| `Locks.ApplyInv` | src/kernel/mutex.c:9-67 | every step of every task keeps the invariant |
| `Locks.AssertionsChecked` | src/kernel/mutex.c:23-67 | in any state, reachable or not, the failure flag is set exactly by unlocking a free mutex, by an unlock of a task that is not the holder, and by a count that is not zero when the mutex has just been taken |
| `Locks.NestingExact` | src/kernel/mutex.c:46-56 | a nested lock keeps the invariant exactly while the count does not wrap |
| `Locks.Reachable` | src/kernel/mutex.c:9-67 | at most one holder, the count is its unmatched calls, no assertion fails, waiters exist only while the lock is taken or a woken task has yet to look |
| `Locks.LongestWaiterFirst` | src/kernel/mutex.c:30-34 | the task woken is the one that has waited longest |
| `Locks.SomebodyMoves` | src/kernel/mutex.c:9-37 | while a task is blocked some other task can move or has still to unlock |
| `Locks.Mutex.LockPass` | src/kernel/mutex.c:13-21 | blocks in front of the list or takes the mutex |
| `Locks.Mutex.Unlock` | src/kernel/mutex.c:23-37 | frees the mutex and unblocks the tail |
| `Locks.ReentrantLock.EnterLock` | src/kernel/mutex.c:46-56 | refines the call, nested or not; the invariant holds while the count does not wrap |
| `Locks.ReentrantLock.EnterUnlock` | src/kernel/mutex.c:58-67 | refines the call, with the holder assertion |
| `Locks.ReentrantLock.Proceed` | src/kernel/mutex.c:9-67 | refines every later step, with the assertions |
| `BufferCache.PoolApart` | src/kernel/buffer.c:50-68 | the test for a new buffer passes exactly when, with it, every descriptor ends before every data block |
| `BufferCache.SearchExact` | src/kernel/buffer.c:28-40 | the table finds a buffer exactly when the block is cached |
| `BufferCache.BreadCorrect` | src/kernel/buffer.c:88-120 | keeps the invariant and the disk clients see, returns a buffer showing the block, blocks exactly when all buffers are in use |
| `BufferCache.BwriteCorrect` | src/kernel/buffer.c:123-126 | the device has the block afterwards and clients see no change |
| `BufferCache.BreleaseCorrect` | src/kernel/buffer.c:129-156 | keeps the invariant and the disk clients see |
| `BufferCache.PokeCorrect` | src/kernel/buffer.c:142-145 | a marked change is seen at its own block only |
| `BufferCache.SyncCorrect` | src/fs/bmap.c:122-126 | clearing the mark and writing brings the device up to date and changes nothing that clients see |
| `BufferCache.OverwriteCorrect` | src/fs/bmap.c:19-23 | an unmarked change that is written at once is seen at its own block only and is on the device |
| `BufferCache.UnmarkedLost` | src/kernel/buffer.c:142-148 | the failing case: an unmarked change is lost at the last release |
| `BufferCache.ApplyCorrect` | src/kernel/buffer.c:88-156 | every action keeps the invariant: a buffer is in use, valid, in its own bucket, and equal to the device unless marked, or free, clean, invalid and on the free list; no block is cached twice |
| `BufferCache.CacheIsDisk` | src/kernel/buffer.c:88-156 | over every run the cache shows what a plain disk would |
| `BufferCache.AllReleased` | src/kernel/buffer.c:129-156 | when all buffers are released the device holds what clients saw |
| `BufferCounts.BreadExact` | src/kernel/buffer.c:88-120 | the buffer returned has one user more than before, one if the block was not cached; no other count, key or content changes |
| `BufferCounts.BreadTakes` | src/kernel/buffer.c:70-120 | a block that is not cached gets a new buffer while the pool has room, else the one released longest ago |
| `BufferCounts.BreleaseShared` | src/kernel/buffer.c:129-138 | a release by one of several users takes one off the count and changes nothing else |
| `BufferCounts.BreleaseLast` | src/kernel/buffer.c:138-156 | the last release takes the block out of the cache, puts its buffer on the free list and writes a marked one to its own block; no other buffer changes |
| `BufferCounts.BwriteExact` | src/kernel/buffer.c:123-126 | the device has the content of the buffer at its block afterwards and changes nowhere else; counts, lists and keys stay |
| `BufferCounts.CountIsBalance` | src/kernel/buffer.c:88-156 | over every run the count of a block is its reads minus its releases |
| `BufferCounts.HeldIsCached` | src/kernel/buffer.c:88-156 | over every run a block read more often than released is cached in a valid buffer that is not free, and any other block is not cached |
| `BufferPool.BufferPool.constructor` | src/kernel/buffer.c:158-169 | the empty cache |
| `BufferPool.BufferPool.GetFromHashTable` | src/kernel/buffer.c:28-40 | the loop computes the search |
| `BufferPool.BufferPool.GetFreeBuffer` | src/kernel/buffer.c:70-85 | a new buffer, else the oldest free one |
| `BufferPool.BufferPool.Bread` | src/kernel/buffer.c:88-120 | refines bread, its assertions hold |
| `BufferPool.BufferPool.Bwrite` | src/kernel/buffer.c:123-126 | refines bwrite |
| `BufferPool.BufferPool.Brelease` | src/kernel/buffer.c:129-156 | refines brelease |
| `Zones.SlotExact` | src/fs/bmap.c:141-154 | different blocks get different slots; the slot exists exactly below 262656 |
| `Zones.ZoneExact` | src/fs/bmap.c:91-154 | where bmap looks: blocks 0 to 6 in the inode, the next 512 as little-endian words of the block that zone 7 names, and from 519 on word (b - 512) % 512 of the block named by word (b - 512) / 512 of zone 8 |
| `Zones.LastSevenMisplaced` | src/fs/bmap.c:142-152 | the last seven blocks the assertion admits fall off the double indirect block |
| `Zones.FormattedExact` | src/fs/super.c:247-302 | a volume as devmkfs makes it on a blank device satisfies the invariant exactly when it has one zone-map block or its bits fill the map blocks evenly; otherwise bits are free that stand for zones beyond the device |
| `Zones.NewZone` | src/fs/bmap.c:7-27 | the zone taken was free, is on the device, blank and named by no slot |
| `Zones.FillInv` | src/fs/bmap.c:113-119 | allocating into a slot keeps all zones of all files apart, marked and on the device |
| `Zones.EnsureCorrect` | src/fs/bmap.c:91-154 | afterwards the slot has a zone; nothing that had one moved; no block reads differently |
| `Zones.EnsureEnough` | src/fs/bmap.c:7-27 | fails only when the map runs out, and takes at most one zone per level |
| `MinixFile.GrownByte` | src/fs/bmap.c:91-138 | allocation changes no byte of any file |
| `MinixFile.StoreByte` | src/fs/inode.c:229-241 | one turn of the write loop changes exactly its bytes |
| `MinixFile.LoopByte` | src/fs/inode.c:224-246 | after the loop the written bytes are there and all other bytes of all files are as before |
| `MinixFile.WriteSplices` | src/fs/inode.c:215-253 | inode_write is a splice on the file's bytes, and the file stays without holes |
| `MinixFile.LoopBlock` | src/fs/inode.c:224-246 | after the loop a file has exactly the blocks it had and those the written range touches |
| `MinixFile.WholeExact` | src/fs/inode.c:215-253 | a write from any offset leaves the file without holes exactly when no block between its old end and the offset stays without a zone |
| `MinixFile.OtherFiles` | src/fs/inode.c:215-253 | other files are unchanged |
| `MinixFile.WriteLands` | src/fs/inode.c:215-253 | after a write the bytes lie in the blocks the layout gives for their places, every zone number that any file had is where it was, and the size is the larger of the old one and the end of the write |
| `MinixFile.WriteEnough` | src/fs/inode.c:224-226 | three free zones for each block touched are enough |
| `MinixFile.TurnsCount` | src/fs/inode.c:224-246 | the number of blocks a request touches |
| `MinixFile.FilesAreArrays` | src/fs/inode.c:215-253 | any sequence of writes to any files acts as on separate byte arrays |
| `MinixVolume.MinixVolume.Balloc` | src/fs/bmap.c:7-27 | the nested loops take the first free zone |
| `MinixVolume.MinixVolume.FillSlot` | src/fs/bmap.c:113-119 | refines the allocation into a slot |
| `MinixVolume.MinixVolume.Level` | src/fs/bmap.c:141-153 | level, index and divider lead to the slot |
| `MinixVolume.MinixVolume.Bmap` | src/fs/bmap.c:91-154 | the walk with create refines Ensure and returns the zone that the layout gives for the block |
| `MinixVolume.MinixVolume.Find` | src/fs/bmap.c:91-154 | the walk without create returns the zone that the layout gives for the block, 0 when there is none |
| `MinixVolume.MinixVolume.Read` | src/fs/inode.c:176-212 | EOF exactly at or past the end, a failed assertion exactly when a block of the range has no zone, else the slice of the file, byte by byte what the blocks of the layout hold |
| `MinixVolume.MinixVolume.Write` | src/fs/inode.c:215-253 | refines the write |
| `Crc.ByteStep` | bochs/bochs-2.6.11/crc.cc:62-63 | a table step is eight steps of the bit register |
| `Crc.RegisterIsSerial` | bochs/bochs-2.6.11/crc.cc:53-63 | the table loop is the bit-serial register |
| `Crc.Division` | bochs/bochs-2.6.11/crc.cc:39-51 | long division by the generator is exact: dividend = quotient * generator + remainder |
| `Crc.RemainderUnique` | bochs/bochs-2.6.11/crc.cc:39-51 | the remainder is the only 32-bit word for which that holds |
| `Crc.GeneratorTerms` | bochs/bochs-2.6.11/crc.cc:39 | the generator is x^32 + x^26 + x^23 + x^22 + x^16 + x^12 + x^11 + x^10 + x^8 + x^7 + x^5 + x^4 + x^2 + x + 1 |
| `Crc.CrcIsRemainder` | bochs/bochs-2.6.11/crc.cc:53-65 | crc32 is the complement of the remainder of the message, first 32 bits complemented and 32 zeros appended (section 3.2.9 of IEEE 802.3) |
| `Crc.FirstBitsComplemented` | bochs/bochs-2.6.11/crc.cc:61 | the preload of ones complements the first 32 bits |
| `Crc.SerialInjective` | bochs/bochs-2.6.11/crc.cc:62-63 | a common tail never makes different registers equal |
| `Crc.BurstDetected` | bochs/bochs-2.6.11/crc.cc:53-65 | equal-length messages that differ only within 32 consecutive bits have different CRCs |
| `Crc.FourBytesDetected` | bochs/bochs-2.6.11/crc.cc:53-65 | equal-length buffers that differ only within four consecutive bytes, one byte in particular, have different CRCs |
| `Crc.EntryOne` | bochs/bochs-2.6.11/crc.cc:58-59 | the entry that marks the table as built is never zero |
| `Crc.CrcTable.Init` | bochs/bochs-2.6.11/crc.cc:41-51 | the nested loops fill the table |
| `Crc.CrcTable.Checksum` | bochs/bochs-2.6.11/crc.cc:53-65 | the loop over the buffer computes crc32, building the table on first use |

## Left out

- Hardware and assembly: port I/O, descriptor tables, TLB and cr3 instructions, the context switch; only their effect on the state is modelled.
- Page tables as bytes in memory: entries are values, so a write to a data page cannot overlap a table by address; that their frames differ is proved. The user, accessed and cache bits of an entry are dropped.
- The reading of a file into the pages that `sys_mmap` has mapped (`fd` other than EOF).
- Kernel-mode writes into user pages, which ignore the write bit.
- `Mmu.MemoryManager.CopyPde` fills the child's table entry by entry where the source copies the parent's table page and then adjusts it; the result is the same.
- The end of the program image is a parameter of the run, and the bytes of a program image are not modelled.
- Running out of frames, pages and task slots: modelled as the kernel halting, which is what the source does.
- Running out of zones: balloc answers EOF when all eight map blocks are full, and reckon stores it as zone number 0xffff and carries on without a panic; with fewer map blocks an assertion of balloc fails. The model stops in both cases with `full` set, so nothing is said about a volume after that.
- Timer frequencies in microseconds: the model starts from ticks. The results about runs hold as long as no deadline wraps 64 bits.
- Callbacks that register or unregister timers within an event, and calls with a slot number out of range, which the source answers with a panic.
- Blocking inside the release of files and directories during `task_exit`, and inside one call of the buffer cache: each is one step.
- Program arguments, users, names and files of a task in fork and exit.
- `BufferCache`: a buffer that is released twice or used after its release; clients hold what they use.
- `reckon` on a file with holes when not creating, which keeps a buffer too long.
- `MinixVolume.MinixVolume.Level`: not stated for the last seven logical blocks the assertion admits, where the source indexes past the end of a buffer.
- `MinixVolume.MinixVolume.Bmap`: not stated for those seven blocks either.
- `MinixVolume.MinixVolume.Find`: not stated for those seven blocks either.
- `MinixVolume.MinixVolume.Write`: not stated for requests that reach those seven blocks.
- `MinixFile.WriteSplices`: for writes that start inside the file or at its end; `MinixFile.LoopByte`, `MinixFile.LoopBlock` and `MinixFile.WholeExact` say what any other write does.
- `MinixFile.FilesAreArrays`: for such writes only, as a file with a hole cannot be read.
- Reuse of zones: the guard of `inode_truncate` is always true, so no zone is ever freed; `bfree`, `ialloc` and `ifree` are not modelled. That a free zone reads as zeros is part of the invariant, as balloc does not clear blocks.
- Access and modification times of inodes; `inode_write` returns the number of bytes, which is the length asked for.
- Path lookup, directories, mounting, the shell, user programs, console and calendar code, and the rest of Bochs.
