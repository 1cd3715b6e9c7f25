# croOS, modelled and proved

croOS is a small 32-bit kernel in C. This project models its self-contained cores in Dafny and proves
what they promise. Each core is modelled twice. A *specification* module says what the state means as
values, defines every operation on them, and holds the theorems over all inputs and all runs. A *code*
module carries the C code's own form (static tables become fields and arrays of a class, loops stay
loops, 32-bit arithmetic wraps, masks and shifts are defined bit by bit) and every method is proved to
do exactly what the specification's operation does.

| part | specification | code |
|---|---|---|
| frame allocator, `src/mm/pmm.c` | `Pmm` | `Pmm.FrameAllocator` |
| page tables, `src/mm/vmm.c` | `PageMap`, `FrameSharing` | `Vmm` |
| kernel heap, `src/mm/kmalloc.c` | `BlockList`, `HeapBytes`, `HeapOverrun` | `HeapMemory`, `Kmalloc` |
| processes and scheduler, `src/kernel/process.c`, `src/sys/signal.c` | `ProcessTable`, `Schedule`, `ProcessMemory` | `Process` |
| keyboard ring, `src/drivers/keyboard.c` | `KeyRing` | `Keyboard` |
| pipes, `src/sys/pipe.c` | `PipeQueue` | `PipeCode` |
| files, `src/fs/ramdisk.c`, `src/fs/vfs.c` | `DiskFiles`, `FilesInHeap`, `VfsTable` | `Ramdisk`, `Vfs` |
| text screen, `src/drivers/vga.c` | `Teletype` | `Vga` |
| lines and circles, `src/drivers/framebuffer.c` | `Raster` | `Framebuffer` |
| CRC and square root, `src/libc/math.c` | `Crc`, `Iteration` | `MathLib` |
| Internet checksum, `src/net/net.c` | `OnesComplement` | `NetChecksum` |
| domain names, `src/net/dns.c` | `DnsNames` | `DnsCode` |
| numbers and addresses as text, `src/libc/string.c`, `src/libc/stdlib.c`, `src/net/net.c` | `NumberText` | `CString` |

`Machine` holds the 32-bit arithmetic and the C bit operators, `RingIndex` the positions in a ring.

## How to read it

- The heap shares one byte array between block headers and payloads. `BlockList` is the list of
  blocks, `HeapBytes` what each call writes into the bytes and what those writes keep, and
  `Kmalloc.Heap` the pointer-walking code, whose methods are proved to make those writes. Sizes are
  32-bit everywhere; a request *fits* (`BlockList.Fits`) when its page count does not wrap, or wraps to
  one page when none is left. `HeapOverrun` is about the requests that do not: it says over the bytes
  alone when a heap is left. `FilesInHeap` runs the ramdisk's writes over this heap.
- The page tables are words in the same physical memory the frame allocator hands out. That one
  directory's mapping never shows in another rests on table frames being fresh, which is part of the
  proof; `FrameSharing` lets the other holders of frames act in between, and `ProcessMemory` runs
  process_create and process_fork over them.
- The scheduler and the two queues are step systems. An event is one tick, one system call, one
  statement of the keyboard's consumer or one turn of a pipe loop, and the theorems are about every
  sequence of events.
- Calls whose result a module does not determine are its parameters: the kernel's end address, the
  answers of other filesystems, the registers the interrupted code holds; in `DiskFiles` the buffer a
  growing write gets, which `FilesInHeap` takes from the heap; in `ProcessTable` the directory of a new
  process, which `ProcessMemory` takes from the page tables.
- Ghost parameters and ghost results name what the C code only implies, such as the frame behind a
  pointer or the list of points a line plotted.

## Where the code differs from what it says of itself

The model follows the code.

- `kfree` coalesces forward only; free neighbours remain (`BlockList.FreeKeepsCoalesced`,
  `BlockList.NeighboursRun`).
- The bitmap's comment says 128 MB; its 131072 bits cover 512 MB (`src/mm/pmm.c:10`).
- `expand_heap` takes frames from the allocator but does not use their addresses, and the heap's end
  is not checked against `KHEAP_END` (`src/mm/kmalloc.c:33-44`).
- `kmalloc` computes pages and the split in 32 bits; a request above 2^32 - 4108 for which some memory
  seems left gets a pointer to no payload (`HeapOverrun.SoundIffFits`), can overwrite a live payload
  (`HeapOverrun.OverrunStores`, `HeapOverrun.OverrunRun`) or have one handed out twice
  (`HeapOverrun.HandsOutTwice`, `HeapOverrun.HandedOutTwice`), and `kcalloc`'s product may wrap
  (`Kmalloc.CallocFits`).
- `process_exec` matches the pid 0 of free slots, which breaks the process count, and when the count
  reaches 0 every process waits for good (`Schedule.CountDrifts`, `Schedule.StallsIff`,
  `Schedule.ExecZeroStarves`).
- `process_fork` gives the child a second directory and drops the one its stack was mapped in, so the
  child has no user stack (`ProcessMemory.ForkHasNoStack`).
- A process created in the slot of one that exited while running loses its initial context at the next
  tick (`Schedule.NewContextSurvives`).
- `pipe_close` always gives up a writer; a second close makes the end of file unreachable
  (`PipeQueue.EndOfFileIff`).
- `vfs_close` never closes the filesystem's descriptor (`VfsTable.OpensLeak`), and descriptors are
  routed by a name cut at 63 characters (`VfsTable.RoutesBack`) and by mounts made after they were
  opened (`VfsTable.MountTakesOver`).
- `ramdisk_seek` goes to the start when the target is 2^31 or more, and `ramdisk_write` does not grow the
  buffer for a write that ends there (`DiskFiles.SeekCorrect`, `DiskFiles.GrowthTestExact`).
- `ramdisk_truncate` and `ramdisk_unlink` look at neither capacity nor open descriptors
  (`DiskFiles.TruncateCorrect`, `DiskFiles.UnlinkCorrect`).
- `vga_putchar` sign-extends characters from 128 up and loses their colour (`Teletype.EntryShows`).
- `dns_decode_name` accepts labels up to 191 bytes, leaves compressed names without a NUL, and runs
  forever on a pointer cycle (`DnsNames.RoundTrip`, `DnsNames.DecodeReads`, `DnsNames.HangsIffSeenTwice`).
- `isqrt(INT_MAX)` overflows (`MathLib.Isqrt`).

## Model

| member | source | states |
|---|---|---|
| `Pmm.FrameAllocator.constructor` | src/mm/pmm.c:12-14 | the static storage is an empty allocator |
| `Pmm.FrameAllocator.SetPage` | src/mm/pmm.c:16 | setting a frame's bit changes the test of that frame and of no other |
| `Pmm.FrameAllocator.ClearPage` | src/mm/pmm.c:17 | clearing a frame's bit changes the test of that frame and of no other |
| `Pmm.FrameAllocator.Init` | src/mm/pmm.c:20-40 | exactly the frames below the kernel's end, cut at the memory size, are in use, and the count is the kernel's end |
| `Pmm.FrameAllocator.AllocPage` | src/mm/pmm.c:42-51 | the bitmap loop takes the lowest clear frame of the set the bitmap stands for, or returns 0 when there is none |
| `Pmm.FrameAllocator.FreePage` | src/mm/pmm.c:53-59 | frees the addressed frame when it is in range and in use, and does nothing otherwise |
| `Pmm.FrameAllocator.FreePages` | src/mm/pmm.c:61 | the 32-bit difference, which with an exact count is the number of frames not in use |
| `Pmm.LowestClear` | src/mm/pmm.c:43-44 | the frame found is clear and every one before it is in use |
| `Pmm.FullMeans` | src/mm/pmm.c:50 | the search fails if and only if every frame is in use |
| `Pmm.BootedInv` | src/mm/pmm.c:20-40 | what pmm_init leaves starts every run sound if and only if the kernel ends inside memory and not at address 0; the count is exact if and only if it ends inside memory |
| `Pmm.AllocIsFresh` | src/mm/pmm.c:42-51 | an allocated frame is the lowest one free, never the kernel's and never one still held; failure means memory is exhausted |
| `Pmm.StepKeepsInv` | src/mm/pmm.c:42-59 | allocating, and freeing a held frame, keep: frames in use are the kernel's and the held ones, and used_pages counts them |
| `Pmm.RunKeepsInv` | src/mm/pmm.c:42-59 | the same in every state of every run of clients that free only what they hold |
| `Pmm.AllocFree` | src/mm/pmm.c:42-59 | freeing the frame just allocated restores the allocator |
| `Pmm.NullMeansFullMeans` | src/mm/pmm.c:46-50 | a returned 0 means exhaustion in exactly the states where frame 0 is in use |
| `PageMap.PageOfMeans` | src/mm/vmm.c:17-18 | two addresses have the same indices if and only if they are on the same 4 KiB page; index 0 is the first 4 MiB |
| `PageMap.TargetOfPageEntry` | src/mm/vmm.c:57 | an entry written with PAGE_PRESENT translates to the aligned physical address, one without to nothing; the low twelve flag bits are kept |
| `PageMap.TableForCorrect` | src/mm/vmm.c:20-29 | a missing table is created from a frame nobody uses, no translation changes, and failure changes nothing |
| `PageMap.MapPageCorrect` | src/mm/vmm.c:50-59 | mapping changes the translation of that page and no other: in the directory named, and below 4 MiB in every directory; it fails only when a table is missing and memory is full |
| `PageMap.MapPageEntry` | src/mm/vmm.c:50-59 | the entry holds the frame and flags asked for, in the old table or in a fresh one linked with flags 7 |
| `PageMap.UnmapPageCorrect` | src/mm/vmm.c:61-69 | unmapping removes the translation of that page and no other |
| `PageMap.CreateDirCorrect` | src/mm/vmm.c:71-83 | a new directory translates exactly as the kernel's does, and no translation changes |
| `PageMap.KernelRegionAgrees` | src/mm/vmm.c:76-81 | below 4 MiB all directories translate alike |
| `PageMap.StepKeepsInv` | src/mm/vmm.c:50-83 | map, unmap and create keep: tables are owned, hang off one place each but for the shared one, and the kernel region is shared |
| `PageMap.RunIsolates` | src/mm/vmm.c:50-83 | a page from 4 MiB up keeps its translation through every run that does not name it in its own directory |
| `FrameSharing.PageKeepsHeld` | src/mm/vmm.c:20-83 | no page-table operation makes a table of a frame another client holds, or writes a word of one |
| `FrameSharing.RunIsolates` | src/mm/vmm.c:20-83 | the same isolation in every run in which other clients take frames, store any words in those they hold, and free them in between |
| `FrameSharing.RunKeepsWord` | src/mm/vmm.c:20-83 | in every such run a word of a held frame changes by its holder's own stores only |
| `Vmm.PageTables.GetOrCreateTable` | src/mm/vmm.c:20-29 | the code on physical words does what PageMap.TableFor says |
| `Vmm.PageTables.MapPage` | src/mm/vmm.c:50-59 | the memory, the frame allocator and the directories move as PageMap.MapPage says |
| `Vmm.PageTables.UnmapPage` | src/mm/vmm.c:61-69 | the memory moves as PageMap.UnmapPage says |
| `Vmm.PageTables.GetPhys` | src/mm/vmm.c:89-97 | the two-level walk returns the translation the memory stands for |
| `Vmm.PageTables.CreateDir` | src/mm/vmm.c:71-83 | the copying loop gives the directory PageMap.CreateDir describes |
| `Vmm.PageTables.Init` | src/mm/vmm.c:31-38 | the kernel's directory becomes the identity map of the first 4 MiB and of nothing else, unless no frame is left for its table: then it maps nothing |
| `Vmm.IdentityMap` | src/mm/vmm.c:37 | in addresses: everything below 4 MiB maps to its own page, everything above to nothing |
| `Vmm.PageDirIndex` | src/mm/vmm.c:17 | the shift and mask give the directory index |
| `Vmm.PageTabIndex` | src/mm/vmm.c:18 | the shift and mask give the table index |
| `Vmm.Combine` | src/mm/vmm.c:27 | a frame address or-ed with flags is an entry with that frame and those flags |
| `Machine.FrameMask` | src/mm/vmm.c:22 | x & 0xFFFFF000, bit by bit, rounds down to a page |
| `Machine.FlagMask` | src/mm/vmm.c:57 | x & 0xFFF, bit by bit, is the rest of a division by the page size |
| `BlockList.TilesOrdered` | src/mm/kmalloc.c:41-52 | blocks that tile the heap follow each other in address order without overlap |
| `BlockList.FirstFit` | src/mm/kmalloc.c:19-26 | the block found is free and large enough and no earlier one is |
| `BlockList.FirstFitIsLowest` | src/mm/kmalloc.c:19-26 | it has the lowest address of all blocks that would do |
| `BlockList.PlaceThenRelease` | src/mm/kmalloc.c:71-82 | handing out and freeing restores the block list, except if and only if an unsplit block is followed by a free one |
| `BlockList.ReleaseLeavesNeighbours` | src/mm/kmalloc.c:117-121 | coalescing looks forward only: which neighbours of a freed block are left free beside it |
| `BlockList.MallocKeepsCoalesced` | src/mm/kmalloc.c:62-83 | a kmalloc that fits leaves no two free blocks side by side when there were none |
| `BlockList.FreeKeepsCoalesced` | src/mm/kmalloc.c:112-122 | kfree leaves no two free blocks side by side if and only if the block before the freed one was not free |
| `BlockList.NeighboursRun` | src/mm/kmalloc.c:62-122 | from an empty heap, two blocks taken and freed in address order stay two free neighbours |
| `BlockList.PagesCover` | src/mm/kmalloc.c:29-30 | the 32-bit page computation covers the request if and only if the request is at most 2^32 - 12 - 4096 |
| `BlockList.LiveDisjoint` | src/mm/kmalloc.c:62-83 | payloads in use are disjoint, a header apart, inside the heap |
| `BlockList.MallocCorrect` | src/mm/kmalloc.c:62-83 | a kmalloc that fits keeps the tiling; on success exactly one payload is new, large enough and at most 28 bytes too large; on failure nothing changes |
| `BlockList.MallocPlaces` | src/mm/kmalloc.c:62-69 | when some free block fits, the payload is the lowest such and the heap does not grow |
| `BlockList.MallocGrows` | src/mm/kmalloc.c:28-69 | when none fits, for every size, the heap grows at its end by the pages the 32-bit count says, one frame each: the fewest that hold the block if and only if the size is at most 2^32 - 12 - 4096 |
| `BlockList.Overrun` | src/mm/kmalloc.c:28-69 | a request that does not fit gets a pointer to the end of the heap, which grows by one page or none |
| `BlockList.FreeCorrect` | src/mm/kmalloc.c:112-122 | kfree keeps the tiling and ends exactly the one payload |
| `BlockList.ReallocCorrect` | src/mm/kmalloc.c:97-110 | a krealloc that fits replaces the one payload by one large enough, in place when it can, and keeps everything on failure |
| `BlockList.MallocThenFree` | src/mm/kmalloc.c:62-122 | kmalloc then kfree is the identity if and only if the block was split or no free block follows it |
| `BlockList.HeapEnds` | src/mm/kmalloc.c:46 | the heap never ends above the frames there are, so no address wraps |
| `BlockList.StepKeepsInv` | src/mm/kmalloc.c:62-122 | every call over owned payloads with a size that fits keeps the heap sound |
| `BlockList.RunKeepsInv` | src/mm/kmalloc.c:62-122 | in every state of every run over live pointers and sizes that fit the blocks tile the heap |
| `BlockList.RunKeepsPayloadsApart` | src/mm/kmalloc.c:62-122 | and any two live payloads are disjoint |
| `HeapBytes.PlaceRepresents` | src/mm/kmalloc.c:71-81 | after the split's header writes the bytes spell the new block list |
| `HeapBytes.PlaceKeepsPayloads` | src/mm/kmalloc.c:71-81 | the split's header writes touch no live payload |
| `HeapBytes.ReleaseRepresents` | src/mm/kmalloc.c:115-121 | after the merge's header writes the bytes spell the new block list |
| `HeapBytes.ReleaseKeepsPayloads` | src/mm/kmalloc.c:115-121 | the merge's header writes touch no live payload |
| `HeapBytes.ExtendRepresents` | src/mm/kmalloc.c:41-54 | after a block is appended the bytes spell the longer list |
| `HeapBytes.ExtendKeepsPayloads` | src/mm/kmalloc.c:41-54 | appending touches no live payload |
| `HeapBytes.PayloadWrite` | src/mm/kmalloc.c:82 | a client writing inside its payload disturbs no header and no other payload |
| `HeapBytes.CarvedPlaces` | src/mm/kmalloc.c:71-81 | inside the heap the stores of kmalloc's second half, sums in 32 bits and in the code's order, are the headers of the exact split |
| `HeapBytes.MallocStepKeeps` | src/mm/kmalloc.c:62-83 | kmalloc's header writes spell the new block list and touch no live payload |
| `HeapBytes.CallocStepKeeps` | src/mm/kmalloc.c:90-95 | kcalloc's do too, and the new payload is zero |
| `HeapBytes.MoveStepKeeps` | src/mm/kmalloc.c:104-110 | krealloc's header writes and copy keep every payload but the one moved, whose old contents are at the result |
| `HeapBytes.ByteStepKeeps` | src/mm/kmalloc.c:62-122 | the writes of any call, and a client's own stores, spell the new block list and touch no live payload but the one named |
| `HeapBytes.RunKeepsBytes` | src/mm/kmalloc.c:62-122 | in every run of calls and client stores, each step defined by the header writes it makes, a live payload that no operation names keeps its size and every byte |
| `HeapOverrun.SoundIffFits` | src/mm/kmalloc.c:28-83 | for every size, after kmalloc's stores the bytes spell some list that starts at heap_head, tiles the heap up to its end and holds the result as a live payload, if and only if the request fits |
| `HeapOverrun.WritesGive` | src/mm/kmalloc.c:28-83 | those stores give the result, end and frames of BlockList.Malloc for every size, and when the request fits its list too, with every byte of the live payloads kept |
| `HeapOverrun.OverrunStores` | src/mm/kmalloc.c:28-83 | a request from 2^32 - 4107 to 2^32 - 41 bytes takes no page and stores a free header inside the last 4095 bytes below the heap's end, whatever was there |
| `HeapOverrun.OverrunOnLast` | src/mm/kmalloc.c:28-83 | a request of 2^32 - 24 less the size of a last block of 17 to 4083 bytes marks that block free, changes no other header and moves neither the heap's end nor a frame |
| `HeapOverrun.HandsOutTwice` | src/mm/kmalloc.c:28-83 | when that block was live, the heap that is left is sound and the next kmalloc of its size that nothing before it fits returns the same payload again |
| `HeapOverrun.OverrunUnseen` | src/mm/kmalloc.c:28-83 | kmalloc(16) and then kmalloc(0xFFFFF010) from an empty heap: the list in memory is the old one and tiles the heap, the pointer returned lies outside it |
| `HeapOverrun.HandedOutTwice` | src/mm/kmalloc.c:28-83 | kmalloc(16), kmalloc(4056), kmalloc(0xFFFFF010), kmalloc(4056) from an empty heap: the second and the fourth call return the same pointer |
| `HeapOverrun.OverrunRun` | src/mm/kmalloc.c:28-83 | kmalloc(4084) and then kmalloc(0xFFFFF000) from an empty heap: the second call returns a pointer past the heap and writes a header into the first payload |
| `HeapMemory.Memory.Zero` | src/mm/kmalloc.c:93 | zeroes exactly the bytes named |
| `HeapMemory.Memory.Copy` | src/mm/kmalloc.c:106 | copies a region to a separate one and changes nothing else |
| `HeapMemory.Memory.Carve` | src/mm/kmalloc.c:71-81 | the second half of kmalloc store by store, every sum in 32 bits |
| `Kmalloc.Heap.constructor` | src/mm/kmalloc.c:57-60 | an empty heap at KHEAP_START |
| `Kmalloc.Heap.FindFree` | src/mm/kmalloc.c:19-26 | walking the links in memory finds the first fit of the block list, NULL when there is none |
| `Kmalloc.Heap.ExpandHeap` | src/mm/kmalloc.c:28-55 | for every size the bytes, the frames and the end of the heap move as BlockList.Expand and HeapBytes.ExtendStep say |
| `Kmalloc.Heap.Malloc` | src/mm/kmalloc.c:62-83 | does for every size what HeapOverrun.Gives says: result, end and frames as BlockList.Malloc, and a sound heap in memory with the result in it if and only if the request fits, whose list is then Malloc's and whose live payloads keep every byte |
| `Kmalloc.Heap.Calloc` | src/mm/kmalloc.c:90-95 | as kmalloc of the wrapped product, and the payload is zero |
| `Kmalloc.CallocFits` | src/mm/kmalloc.c:91 | the block holds count times size bytes if and only if the product did not wrap |
| `Kmalloc.Heap.Realloc` | src/mm/kmalloc.c:97-110 | as BlockList.Realloc; the old contents are at the result, every other payload keeps every byte, and on failure all do |
| `Kmalloc.Heap.Free` | src/mm/kmalloc.c:112-122 | the bytes move as HeapBytes.FreeStep says, live payloads keep every byte |
| `Kmalloc.PageCount` | src/mm/kmalloc.c:29-30 | the 32-bit page count for every size, and that it covers the request if and only if it did not wrap |
| `ProcessTable.InitInv` | src/kernel/process.c:23-30 | process_init makes the slot accounting right |
| `ProcessTable.CreateCorrect` | src/kernel/process.c:32-86 | a new process takes the lowest free slot with an unused pid and its initial context, and disturbs no other slot; it is its own parent in the current slot |
| `ProcessTable.CreateKeepsInv` | src/kernel/process.c:32-86 | create keeps the accounting and fails if and only if all 64 slots are taken |
| `ProcessTable.ExitCorrect` | src/kernel/process.c:88-102 | exit frees the one slot with the pid, and no process has it afterwards |
| `ProcessTable.ExitKeepsInv` | src/kernel/process.c:88-102 | exit keeps the accounting |
| `ProcessTable.ForkCorrect` | src/kernel/process.c:104-134 | a fork succeeds if and only if the parent's pid matches a slot and one is free; the child has the parent's saved registers but eax, and no other slot changes; pid 0 only makes a fresh process |
| `ProcessTable.ForkKeepsInv` | src/kernel/process.c:104-134 | fork keeps the accounting |
| `ProcessTable.ExecKeepsInv` | src/kernel/process.c:136-151 | exec keeps the accounting if and only if its pid is not the 0 of a free slot |
| `ProcessTable.SendCorrect` | src/sys/signal.c:19-41 | stop makes a process not runnable, continue runnable, kill ends it; other signals and pids from 64 up do nothing to the table |
| `ProcessTable.SetStateKeepsInv` | src/sys/signal.c:30-39 | stop and continue keep the accounting |
| `ProcessTable.TickKeepsInv` | src/kernel/process.c:154-203 | a tick keeps the accounting |
| `Schedule.StepKeepsInv` | src/kernel/process.c:23-203 | a step keeps the accounting if and only if it is not exec of pid 0 with a slot free |
| `Schedule.RunKeepsInv` | src/kernel/process.c:23-203 | in every run of ticks, create, fork, guarded exec, exit and signals proc_count is the number of slots in use and pids are distinct |
| `Schedule.CountDrifts` | src/kernel/process.c:23-203 | in every run at all proc_count is the number of slots in use less the free slots that exec revived |
| `Schedule.ScanIsFirst` | src/kernel/process.c:175-180 | the search stops at the first runnable slot after the current one |
| `Schedule.TickApproaches` | src/kernel/process.c:154-187 | with the count not 0 a tick picks a runnable slot at or before any given runnable one; with count 0 it does nothing |
| `Schedule.TickWithNoneRunnable` | src/kernel/process.c:154-202 | with nothing runnable the interrupted registers are saved in the current slot and resumed at once |
| `Schedule.BoundedWaiting` | src/kernel/process.c:154-187 | in every run, exec of pid 0 included, a slot that stays runnable is picked within 64 ticks that find the count not 0, whatever happens to the others in between |
| `Schedule.PickedIffCounted` | src/kernel/process.c:154-187 | over ticks alone a runnable slot is picked if and only if the count is not 0; with count 0 no number of ticks changes anything |
| `Schedule.StallsIff` | src/kernel/process.c:136-155 | after any run a tick does nothing if and only if as many slots are in use as exec revived free ones |
| `Schedule.GuardedWaiting` | src/kernel/process.c:136-187 | when exec is kept from pid 0 of a free slot every tick picks, and a slot that stays runnable is picked within 64 ticks |
| `Schedule.NoneTwiceBefore` | src/kernel/process.c:154-187 | in every run, until then no other slot is picked twice |
| `Schedule.ExecZeroStarves` | src/kernel/process.c:136-155 | the shortest failing run: from boot, exec of pid 0 and exit of pid 1 leave a runnable slot that no tick picks |
| `Schedule.ContextRestored` | src/kernel/process.c:157-202 | a preempted process resumes with exactly the 13 register values it was saved with, after any run at all of steps on other slots |
| `Schedule.BootNumbered` | src/kernel/process.c:23-151 | in every state reached from boot every pid is below the next one, which is all ContextRestored asks |
| `Schedule.ContextKept` | src/kernel/process.c:157-202 | a process picked again at once keeps its registers |
| `Schedule.NewContextSurvives` | src/kernel/process.c:71-79 | a new process keeps its initial context through the next tick if and only if it is not in the slot still called current |
| `ProcessMemory.EquipExtends` | src/kernel/process.c:53-67 | process_create's directory, stacks and mapping leave every other directory's stack page and every held frame alone; its stack page is on a frame nobody had |
| `ProcessMemory.BootInv` | src/kernel/process.c:23-28 | process_init's cleared table over memory that holds the kernel's directory starts every such run |
| `ProcessMemory.RunKeepsInv` | src/kernel/process.c:32-151 | over every run of process and paging operations and other clients of the frames, every directory has its own stack frame, still held, and every slot its own directory |
| `ProcessMemory.NoSharedStacks` | src/kernel/process.c:32-151 | in every such run no two processes have their stack page on one frame, and no table or directory is on a stack's frame |
| `ProcessMemory.RunKeepsStack` | src/kernel/process.c:53-67 | a process's stack page stays on its frame through every run |
| `ProcessMemory.ForkHasNoStack` | src/kernel/process.c:104-134 | the child of a fork has no stack page then or after any run: its second directory replaces the one its stack was mapped in |
| `ProcessMemory.StackIffFourLeft` | src/kernel/process.c:53-67 | a new process has a stack page if and only if four frames are left |
| `Process.Scheduler.Init` | src/kernel/process.c:23-30 | the table becomes ProcessTable.Init's, and the accounting is right |
| `Process.Scheduler.Create` | src/kernel/process.c:32-86 | slots, counters and result move as ProcessTable.Create says |
| `Process.Scheduler.Exit` | src/kernel/process.c:88-102 | slots and counters move as ProcessTable.Exit says |
| `Process.Scheduler.Fork` | src/kernel/process.c:104-134 | slots, counters and result move as ProcessTable.Fork says |
| `Process.Scheduler.Exec` | src/kernel/process.c:136-151 | slots and result move as ProcessTable.Exec says |
| `Process.Scheduler.Tick` | src/kernel/process.c:154-203 | slots, current index and resumed registers are ProcessTable.Tick's |
| `Process.Scheduler.Search` | src/kernel/process.c:174-180 | the loop finds the slot that ProcessTable.Scan names |
| `Process.Scheduler.Send` | src/sys/signal.c:19-41 | the table moves as ProcessTable.Send says |
| `KeyRing.FullMeans` | src/drivers/keyboard.c:36-42 | a push is refused if and only if 255 characters are unread |
| `KeyRing.StepKeepsInv` | src/drivers/keyboard.c:36-89 | a push between any two consumer statements, and each statement, keep the ring's invariant |
| `KeyRing.ConsumedIsPrefix` | src/drivers/keyboard.c:36-89 | in every interleaving the characters consumed are a prefix of those accepted, and at most 255 wait |
| `KeyRing.NoneRefused` | src/drivers/keyboard.c:36-42 | while the unread characters and the pushes together are at most 255, every push is accepted |
| `KeyRing.TakesTheOldest` | src/drivers/keyboard.c:84-89 | a call of kb_getchar takes the oldest unread character whatever is pushed between its statements |
| `Keyboard.Buffer.Push` | src/drivers/keyboard.c:36-42 | the ring moves as the push step |
| `Keyboard.Buffer.Test` | src/drivers/keyboard.c:85 | the consumer goes on if and only if something is unread |
| `Keyboard.Buffer.Load` | src/drivers/keyboard.c:86 | the ring moves as the load step |
| `Keyboard.Buffer.Advance` | src/drivers/keyboard.c:87 | the ring moves as the advance step |
| `Keyboard.Buffer.HasInput` | src/drivers/keyboard.c:95-97 | true if and only if something is unread |
| `PipeQueue.ReadKeepsInv` | src/sys/pipe.c:48-56 | one turn of the read loop takes the oldest unread byte |
| `PipeQueue.WriteKeepsInv` | src/sys/pipe.c:69-77 | one turn of the write loop appends one byte |
| `PipeQueue.Conserved` | src/sys/pipe.c:40-89 | in every interleaving of reads, writes and closes the bytes written are those read followed by the count buffered ones, and the positions are count apart modulo 4096 |
| `PipeQueue.EndOfFileIff` | src/sys/pipe.c:48-52 | readers get precisely the remaining bytes, and then the end of file if and only if there was exactly one close |
| `PipeCode.KernelPipe.constructor` | src/sys/pipe.c:27-38 | a new pipe, one reader and one writer |
| `PipeCode.KernelPipe.Read` | src/sys/pipe.c:40-59 | the loop fills the caller's buffer with the oldest bytes, as many as asked for or there are, and returns, or waits for a writer |
| `PipeCode.KernelPipe.Write` | src/sys/pipe.c:61-80 | the loop appends the caller's bytes as far as there is room |
| `PipeCode.KernelPipe.Close` | src/sys/pipe.c:82-89 | gives up a writer, never a reader |
| `DiskFiles.OpenCorrect` | src/fs/ramdisk.c:49-71 | open gives a free descriptor at position 0 on a file in use, and disturbs no other |
| `DiskFiles.WriteCorrect` | src/fs/ramdisk.c:91-114 | a write replaces and extends the content exactly at the descriptor's position, regrown or not; other files and positions stay; failure changes nothing |
| `DiskFiles.GrowthTestExact` | src/fs/ramdisk.c:97 | the signed 32-bit test for a larger buffer is right if and only if the write ends below 2^31 |
| `DiskFiles.ReadCorrect` | src/fs/ramdisk.c:79-89 | a read yields the content from the position on and moves that position |
| `DiskFiles.WriteThenRead` | src/fs/ramdisk.c:79-130 | what one descriptor wrote another one at the same place reads |
| `DiskFiles.SeekCorrect` | src/fs/ramdisk.c:116-130 | a seek goes where it is told within the content and otherwise to the nearer end, if and only if the target is below 2^31 or the file is empty: from there on the sum wraps and it goes to the start |
| `DiskFiles.TruncateCorrect` | src/fs/ramdisk.c:180-185 | truncate keeps sizes and positions sound if and only if the size is within the capacity and no open position is beyond it |
| `DiskFiles.UnlinkCorrect` | src/fs/ramdisk.c:146-153 | unlink keeps descriptors sound if and only if none is open on the file |
| `DiskFiles.CreatedIsFound` | src/fs/ramdisk.c:30-47 | a created name is found again if and only if it has at most 63 characters |
| `DiskFiles.RunKeepsInv` | src/fs/ramdisk.c:49-185 | over every permitted run size <= capacity and positions <= sizes, and a file nobody writes or truncates keeps its content |
| `FilesInHeap.WriteRefines` | src/fs/ramdisk.c:91-114 | with file data in kmalloc's bytes, a write does to the files what DiskFiles.Write says; memory goes on holding every file and no live payload but the file's own changes |
| `FilesInHeap.UnlinkKeeps` | src/fs/ramdisk.c:146-153 | unlink frees the data and memory goes on holding every other file |
| `FilesInHeap.BootAgrees` | src/fs/ramdisk.c:205-207 | empty tables over an empty heap start every such run |
| `FilesInHeap.RunKeepsFiles` | src/fs/ramdisk.c:49-185 | over every run of file operations among other clients' kmallocs, kreallocs and kfrees memory holds every file, and a file no event writes, cuts or removes keeps its bytes in the same payload |
| `Ramdisk.Store.FindFile` | src/fs/ramdisk.c:30-36 | the first entry in use with the name |
| `Ramdisk.Store.Create` | src/fs/ramdisk.c:38-47 | the tables move as DiskFiles.Create says |
| `Ramdisk.Store.Open` | src/fs/ramdisk.c:49-71 | the tables and the result are DiskFiles.Open's |
| `Ramdisk.Store.Close` | src/fs/ramdisk.c:73-77 | the tables and the result are DiskFiles.Close's |
| `Ramdisk.Store.Read` | src/fs/ramdisk.c:79-89 | the caller's buffer gets DiskFiles.Read's bytes |
| `Ramdisk.Store.Write` | src/fs/ramdisk.c:91-114 | tables, buffers and result are DiskFiles.Write's, through regrowth into a fresh buffer |
| `Ramdisk.Store.Seek` | src/fs/ramdisk.c:116-130 | the position and the result are DiskFiles.Seek's |
| `Ramdisk.Store.Truncate` | src/fs/ramdisk.c:180-185 | the size is DiskFiles.Truncate's |
| `Ramdisk.Store.Unlink` | src/fs/ramdisk.c:146-153 | the entry is DiskFiles.Unlink's |
| `Ramdisk.Store.Mkdir` | src/fs/ramdisk.c:132-135 | the tables and the result are DiskFiles.Mkdir's |
| `Ramdisk.RoundUp` | src/fs/ramdisk.c:98 | the mask rounds up to a page |
| `VfsTable.BestWins` | src/fs/vfs.c:18-30 | a path goes to its longest matching mount, the first of equals, and nowhere if and only if none matches |
| `VfsTable.RoutesBack` | src/fs/vfs.c:71-109 | operations on a descriptor reach the mount it was opened on if and only if that mount's path has at most 63 characters |
| `VfsTable.MountTakesOver` | src/fs/vfs.c:18-91 | over every run, a descriptor that stays open goes on reaching its mount if and only if no mount of the run that found room is a longer match for its name |
| `VfsTable.MountMoves` | src/fs/vfs.c:50-91 | one mount moves an open descriptor onto the ramdisk or off it if and only if there is room, its path is a longer match and the two mounts differ in kind |
| `VfsTable.WriteSeekRead` | src/fs/vfs.c:82-109 | what a descriptor wrote is read back through it after a seek, with any run in between that leaves the descriptor alone and does not write to the file |
| `VfsTable.OpensLeak` | src/fs/vfs.c:57-80 | closing gives no ramdisk descriptor back: in every run each successful open costs one for good, and at most 64 succeed |
| `VfsTable.Exhausted` | src/fs/vfs.c:57-74 | with all 64 taken nothing on the ramdisk opens |
| `VfsTable.StepKeepsApart` | src/fs/vfs.c:57-109 | with ramdisk mounts only, descriptors in use have distinct open ramdisk descriptors |
| `VfsTable.OwnPosition` | src/fs/vfs.c:57-109 | a descriptor keeps its file and position through every run on the other descriptors |
| `Vfs.Switch.ResolveMount` | src/fs/vfs.c:18-35 | the loop finds VfsTable.Best |
| `Vfs.Switch.Mount` | src/fs/vfs.c:50-55 | a ninth mount is ignored, paths are cut at 255 characters |
| `Vfs.Switch.Open` | src/fs/vfs.c:57-74 | the tables and the ramdisk move as VfsTable.Open says |
| `Vfs.Switch.Close` | src/fs/vfs.c:76-80 | the tables move as VfsTable.Close says; the ramdisk does not |
| `Vfs.Switch.Read` | src/fs/vfs.c:82-91 | the caller's buffer gets the bytes of VfsTable.Read, through the ramdisk's own read |
| `Vfs.Switch.Write` | src/fs/vfs.c:93-101 | tables and ramdisk move as VfsTable.Write says |
| `Vfs.Switch.Seek` | src/fs/vfs.c:103-109 | the ramdisk's position moves as VfsTable.Seek says |
| `Teletype.EntryShows` | src/drivers/vga.c:17-19 | a cell shows its character in the colour asked for if and only if the character is 7-bit or the colour 0xFF |
| `Teletype.TypesInOrder` | src/drivers/vga.c:56-59 | printable characters stand one after the other on the row and touch no other |
| `Teletype.BackspaceTakesBack` | src/drivers/vga.c:48-53 | a backspace undoes the character before it, but for one that wrapped |
| `Teletype.NewlineAndReturn` | src/drivers/vga.c:41-45 | newline and return move the carriage and touch nothing typed |
| `Teletype.TabStopFits` | src/drivers/vga.c:47 | a tab goes to the next multiple of 8 |
| `Teletype.PutCharRefines` | src/drivers/vga.c:40-67 | one character on the screen is one character on the paper seen through its last 25 rows |
| `Teletype.ScreenIsTeletype` | src/drivers/vga.c:27-103 | from a cleared screen, for every stream of characters and colours, the screen shows the last 25 rows of the teletype fed the same stream, the cursor in range |
| `Vga.Display.Clear` | src/drivers/vga.c:27-34 | every cell blank in the current colour, the cursor at the origin |
| `Vga.Display.SetColor` | src/drivers/vga.c:13-15 | foreground in the low, background in the high four bits, for colours below 16 |
| `Vga.Display.ScrollUp` | src/drivers/vga.c:96-103 | the in-place loops move every row up and blank the last |
| `Vga.Display.PutChar` | src/drivers/vga.c:40-67 | buffer and cursor move as Teletype.PutChar says |
| `Vga.Display.Puts` | src/drivers/vga.c:69-73 | the screen goes on showing the end of what a teletype would have typed |
| `Vga.NextTab` | src/drivers/vga.c:47 | the mask ~7 gives the tab stop |
| `Raster.LineStep` | src/drivers/framebuffer.c:78-80 | one turn of the loop steps along the major axis and keeps the point within half a pixel of the true line |
| `Raster.EndsTogether` | src/drivers/framebuffer.c:77 | at the end of the major axis the minor one is at its end too |
| `Raster.RoundedRootUnique` | src/drivers/framebuffer.c:86-101 | the column a circle's row asks for is unique |
| `Framebuffer.PlottedExactly` | src/drivers/framebuffer.c:25-29 | plotting a list of points colours exactly those that are visible |
| `Framebuffer.OffsetInjective` | src/drivers/framebuffer.c:28 | distinct visible pixels are distinct words |
| `Framebuffer.LineTurn` | src/drivers/framebuffer.c:75-81 | the pen is near the line and at the end after exactly max(dx, dy) turns, and the error term stays in 32 bits |
| `Framebuffer.Screen.PutPixel` | src/drivers/framebuffer.c:25-29 | clipping at the edges, one word set |
| `Framebuffer.Screen.DrawLine` | src/drivers/framebuffer.c:69-82 | terminates and plots max(dx, dy) + 1 points from end to end, each within half a pixel of the true line, and nothing else |
| `Framebuffer.Screen.DrawCircle` | src/drivers/framebuffer.c:86-101 | terminates and plots, in all eight octants, for every row the rounded root as long as it is not left of the diagonal, and nothing else |
| `Framebuffer.CircleStep` | src/drivers/framebuffer.c:97-99 | one turn of the loop goes to the next row's column |
| `Crc.ShiftsLinear` | src/libc/math.c:68-69 | any number of register shifts is linear over exclusive or |
| `Crc.TableStep` | src/libc/math.c:80 | one table look-up does the work of eight message bits |
| `Crc.RegisterInjective` | src/libc/math.c:79-80 | different registers stay different under every message |
| `Crc.BurstDetected` | src/libc/math.c:75-82 | messages that differ only inside one run of four bytes have different CRCs |
| `Crc.Residue` | src/libc/math.c:75-82 | a message followed by its own CRC has the CRC 0x2144DF1C |
| `MathLib.CrcTable.Init` | src/libc/math.c:65-73 | every table entry is eight shifts of its index |
| `MathLib.CrcTable.Checksum` | src/libc/math.c:75-82 | for every byte string the table loop is the CRC by definition, bit by bit, and the table is right whenever the flag is set |
| `MathLib.Isqrt` | src/libc/math.c:30-36 | terminates with the floor of the square root for every number below INT_MAX without leaving 32 bits; INT_MAX itself gives -2^30 |
| `MathLib.RootUnique` | src/libc/math.c:30-36 | there is one such number |
| `OnesComplement.OnesSumReduces` | src/net/net.c:34-42 | the one's complement sum is the plain sum of the words, reduced |
| `OnesComplement.TwoFoldsSuffice` | src/net/net.c:39-40 | two folds reduce every 32-bit sum |
| `OnesComplement.SumFits` | src/net/net.c:35-41 | for buffers up to 131074 bytes the folded accumulator gives the exact checksum |
| `OnesComplement.BoundIsSharp` | src/net/net.c:36-37 | one byte more and the accumulator can wrap to a wrong sum |
| `OnesComplement.StoredVerifies` | src/net/net.c:34-42 | with the checksum stored in its zeroed even-offset field the checksum of the whole is 0 |
| `OnesComplement.OneWordChanged` | src/net/net.c:34-42 | after changing one word of a verified buffer it verifies again if and only if 0 became 0xFFFF, or 0xFFFF became 0 in a buffer that is not all zero afterwards |
| `OnesComplement.ByteOrderIndependent` | src/net/net.c:35 | the sum of words loaded in the machine's order is the network-order sum with its bytes swapped |
| `NetChecksum.Checksum16` | src/net/net.c:34-42 | the loop and folds give the Internet checksum of every buffer up to 131074 bytes |
| `NetChecksum.Header` | src/net/net.c:45-50 | the 12-byte pseudo-header in its memory layout |
| `NetChecksum.TcpChecksum` | src/net/net.c:44-61 | the checksum of the pseudo-header followed by the segment |
| `DnsNames.EncodeLength` | src/net/dns.c:35-51 | the encoding is two bytes longer than the name |
| `DnsNames.DecodeReads` | src/net/dns.c:54-81 | a name as the RFC defines it, pointers included, is decoded to its joined labels with the offset just behind it; the text ends in a NUL if and only if no pointer was followed |
| `DnsNames.RoundTrip` | src/net/dns.c:35-81 | anywhere in a buffer, decoding an encoded name gives it back with the offset just behind it if and only if every label has 1 to 191 bytes |
| `DnsNames.OnePointer` | src/net/dns.c:66-71 | labels followed by one pointer to a name: the joined text, the offset just behind the pointer, no NUL |
| `DnsNames.MoreSteps` | src/net/dns.c:60-78 | a finished run does not depend on the number of turns allowed |
| `DnsNames.DoneLength` | src/net/dns.c:60-78 | how many bytes of text a run that ends has written |
| `DnsNames.HangsIffSeenTwice` | src/net/dns.c:60-78 | decoding runs forever if and only if one of the first offsets it visits comes twice; otherwise it ends within one turn more than the buffer has bytes |
| `DnsNames.BackwardEnds` | src/net/dns.c:60-78 | it ends when every pointer on the way leads below the start of the labels it ends, as section 4.1.4 of RFC 1035 asks |
| `DnsNames.SelfPointerHangs` | src/net/dns.c:66-71 | a pointer to itself never ends |
| `DnsCode.EncodeName` | src/net/dns.c:35-51 | the loop writes the encoding and nothing behind it |
| `DnsCode.DecodeName` | src/net/dns.c:54-81 | the loop does what DnsNames.Decode says, in any output buffer that holds the text and a NUL |
| `DnsCode.IsPointer` | src/net/dns.c:66 | the mask test holds exactly from 0xC0 on |
| `DnsCode.FollowPointer` | src/net/dns.c:69 | the low 14 bits of the pointer |
| `NumberText.StrtolReadsItoa` | src/libc/stdlib.c:52-81 | strtol reads back every 32-bit number itoa prints in bases 2 to 16, whatever follows, if and only if it is not a hexadecimal 0 before an x |
| `NumberText.StrtolFindsBase` | src/libc/stdlib.c:60-63 | with base 0 it reads back every decimal text |
| `NumberText.HexRead` | src/libc/stdlib.c:60-66 | hexadecimal digits behind 0x are read, base given or not |
| `NumberText.AtoiReadsItoa` | src/libc/string.c:106-131 | atoi inverts itoa in base ten for every 32-bit number |
| `NumberText.ReadingInRange` | src/libc/stdlib.c:68-77 | reading back stays in the signed range if and only if the number is not negative or, in base ten, above the least |
| `NumberText.DigitsFitScratch` | src/libc/string.c:107 | itoa never prints more than 32 digits |
| `NumberText.OctetFits` | src/net/net.c:81-82 | an octet and its NUL fit 4 bytes |
| `NumberText.SwapTwice` | src/net/net.h:10-12 | htonl is its own inverse |
| `NumberText.IpRoundTrip` | src/net/net.c:63-88 | net_ip_from_string inverts net_ip_to_string for every 32-bit address |
| `NumberText.IpTextInjective` | src/net/net.c:76-88 | different addresses print differently, in at most 15 characters |
| `CString.Itoa` | src/libc/string.c:106-122 | the loops write the text and its NUL and nothing behind them |
| `CString.Scratch` | src/libc/string.c:107-115 | the digits go backwards into the 32-byte scratch without overrunning it |
| `CString.ReadInt` | src/libc/string.c:124-131 | the loop reads what Atoi reads |
| `CString.ReadLong` | src/libc/stdlib.c:52-81 | the loop reads what Strtol reads and returns where the rest begins |
| `CString.IpFromString` | src/net/net.c:63-74 | the loop reads what IpFromText reads |
| `CString.IpToString` | src/net/net.c:76-88 | the loop writes the dotted text and its NUL |

## Left out

- Kmalloc.Heap.Calloc: asks for a product that fits; one that does not makes kcalloc zero nearly the whole address space.
- Kmalloc.Heap.Realloc: asks for a size that fits; the copy and kfree that follow a request that does not are not modelled.
- Kmalloc.CallocFits: asks the same of the product.
- HeapBytes.RunKeepsBytes: the run's sizes fit; what one that does not fit does is in HeapOverrun, and of the calls after it only what HandsOutTwice says.
- Kmalloc.Heap.Free: asks for a live payload or NULL; what freeing anything else does to the bytes is not modelled.
- Kmalloc.Heap.ExpandHeap: the heap is a region of its own from KHEAP_START on; that its addresses need mapping is not modelled.
- Vmm.PageTables.MapPage: directories are named by a ghost frame number beside the pointer; the TLB flush and the loading of CR3 and CR0 leave no trace.
- Vmm.PageTables.Init: asks for one free frame, as the code does not look at the result for the directory.
- ProcessTable.CreateCorrect: names, file descriptors and start time are not in the table, and its directories are numbers: stacks and what directories map are in ProcessMemory; pids do not wrap at 2^31.
- ProcessTable.SendCorrect: the pending bits, masks, handlers and `signal_deliver` are not modelled, only what a signal does to the process table.
- Process.Scheduler.Tick: switching page directories, and es, fs and gs, are left out; it is a step of its own, as `timer_irq` does not call it.
- Keyboard.Buffer.Push: scan codes, modifiers and their tables are left out, and so is `kb_clear_buffer`.
- PipeCode.KernelPipe.Read: runs until it finishes or would wait; interleaving inside it is what PipeQueue is about. The table of 64 pipes and pipe ids are left out.
- Ramdisk.Store.Write: a write ends below 2^31, as DiskFiles.GrowthTestExact says it must; what kmalloc gives is a fresh array: that buffers stay apart in one memory is FilesInHeap.RunKeepsFiles. Open modes are not kept, as the code never looks at them.
- DiskFiles.WriteCorrect: the same bound on where the write ends.
- Ramdisk.Store.Unlink: arrays are not freed; the kfree is in FilesInHeap.UnlinkKeeps, and use of the freed buffer through a descriptor still open is not modelled.
- DiskFiles.UnlinkCorrect: the table only; the kfree is in FilesInHeap.UnlinkKeeps.
- Vfs.Switch.Write: the same bound on where a ramdisk write ends.
- Vfs.Switch.Read: filesystems other than the ramdisk are a parameter; `vfs_stat`, `vfs_readdir`, `vfs_rename`, `vfs_truncate` and the directory operations only forward and are left out.
- Vga.Display.PutChar: moving the hardware cursor is port output; `vga_put_at`, `vga_fill_rect` and number printing are left out.
- Framebuffer.Screen.DrawLine: coordinates up to 2^28, so that no error term wraps.
- Framebuffer.Screen.DrawCircle: centre and radius up to 2^28, so that no sum wraps.
- DnsCode.DecodeName: takes the number of turns allowed, since the loop can run forever; the output buffer has room for the text, which the code does not check; a read behind the buffer ends the run.
- NumberText.ReadingInRange: signed overflow, undefined in C, is two's complement everywhere else in the module.
- CString.Itoa: bases from 2 up; base 1 does not terminate and base 0 divides by zero.
- Ramdisk `rmdir`, `stat` and `readdir`, and `kmalloc_aligned`: they add only easy members.
- `gcd`, `lcm`, `ipow`, `rand`, `fnv1a`, `qsort`, `bsearch`, `memmove` and `strstr`: self-contained loops without state to share with the rest.
- FAT16, sockets, ARP, ICMP, DHCP, HTTP, the DNS cache and resolver, ELF loading, the window system and the other drivers.
