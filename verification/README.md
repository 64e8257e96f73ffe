# A verified model of the micro kernel

This project models the layers of a small x86 kernel that build on one another, and proves what each
layer promises to the one above it. It ends in two statements over all of them. A loaded process finds
exactly the bytes of its file at virtual address 0x400000. And over any run of timer interrupts, system
calls and stores in user mode, every program stays loaded, no process writes another's memory, a page
table, or a block the kernel keeps, the tasks take their turns and resume where they were interrupted, and
each byte of a program is what its own task stored there last. Booting and every load whose failing request ends below the kernel's image keep the
invariant behind both.

The kernel changes its state in place, and so does the model. The bitmap of the block allocator, the
table of big extents, RAM (an array of bytes, words in little-endian order), the stream positions, the
linked list of tasks and the descriptor tables are fields and arrays that methods update; each method
is tied to a function of the old state, and the theorems are about those functions. Words wrap at 32
bits where the C code lets them. The system size, the reserved blocks, the file system's geometry, the
number of tasks and every address are symbolic.

| file | layer |
|---|---|
| `Bits.dfy`, `Links.dfy`, `Memory.dfy` | machine words with C's bitwise operators, linked lists, RAM, which blocks a change touches |
| `Pmm.dfy` | the bitmap allocator: first fit for one block and for n |
| `Kheap.dfy`, `HeapOwnership.dfy`, `HeapRuns.dfy` | kmallac and kfree, who owns which block, and runs of them |
| `PageTables.dfy`, `Paging.dfy` | two-level page tables in memory as a flat map of 2^20 pages |
| `DiskStream.dfy`, `FatChain.dfy`, `Fat16.dfy` | the sector stream, the FAT16 chain, the recursive reader |
| `Scheduling.dfy`, `Tasks.dfy` | ticks and system calls over saved contexts, and the linked list of tasks |
| `UserReturn.dfy` | the assembly that enters user mode, instruction by instruction on registers and stack |
| `Images.dfy`, `Loading.dfy`, `Kernel.dfy` | booting, loading programs, isolation, the end-to-end statement, freeing a task |
| `CopyString.dfy` | reading a string out of another address space through a temporary page |
| `Traps.dfy`, `SystemCalls.dfy` | the interrupt frame on the kernel's stack, the interrupt handlers and user mode in the running kernel |
| `PathParser.dfy` | the path parser and its round trips |
| `Gdt.dfy`, `Segments.dfy` | the segment descriptors with their round trip, and the kernel's own table with the selectors user mode is entered with |
| `Counterexamples.dfy` | concrete inputs for the findings below |

`dafny verify dfyconfig.toml` covers the whole project.

## Findings

Where the code does less than its interface suggests, the model keeps the code and a lemma gives the
exact condition under which the promise holds.

- A request for n blocks that does not fit marks blocks 0 to n-1 as used all the same, without counting
  them; nothing is lost exactly when those blocks were in use already (`Frames.FailedManyHarmlessExactly`).
  The search never uses the last block of the system.
- An extent of several blocks is forgotten when the table of 100 is full, and kfree then gives back its
  first block only; kfree of null with a full table frees block 0 (`HeapOwnership.MallocKeepsExactly`,
  `HeapOwnership.FreeKeepsExactly`).
- A page directory takes 1026 blocks. With fewer free, `paging_new_4gb` uses up all that are left, and
  exactly with 1025 free it stores the directory's address in the word at physical address 0
  (`PagingUnit.Paging.New4gb`, `Counterexamples.NullChunkStored`).
- kzalloc clears memory from address 0 on when there is none to hand out (`Kernels.Kernel.Kzalloc`). The
  kernel's own image, with the bitmap and every table, lies from 1 MiB on. A request that fails, and with it
  a load, does no harm exactly when its size is at most the address at which the image begins
  (`Loading.FailedRequestExactly`, `Kernels.Kernel.LoadForSlot`, `Counterexamples.FailedRequestClears`).
- A load that fails gives back nothing of what it took; one that lacks blocks for the address space uses up
  all that are left (`Kernels.Kernel.LoadForSlot`, `Kernels.Kernel.FailedLoadLoses`).
- An interrupt pushes its frame at 0x600000 through the interrupted task's directory, and the handlers look
  for it there through the kernel's. They find it exactly when page 0x5FF is none of the task's own, or that
  very frame lay there before; a program of 2 MiB and more has that page, and is overwritten instead
  (`Traps.FrameArrivesExactly`, `Counterexamples.FrameLost`). In the same way the new task's directory shows
  task_return the task's record, and the stack, exactly where the page is none of the task's own
  (`Images.KernelSeesExactly`).
- The chain ends at 12-bit marks. On a FAT16 volume these are ordinary cluster numbers, and the format's
  own end marks are followed as links; the walk is right exactly when it meets neither
  (`FatChains.WalkFollowsFormatExactly`; section "FAT Data Structure" of the Microsoft FAT specification 1.03).
- A read that begins inside a cluster takes the bytes after the cluster's end from the wrong place, unless
  the clusters happen to be neighbours on the disk (`FatChains.ReadsInPlaceExactly`,
  `Counterexamples.ReadBehindCluster`). One that begins inside a sector and leaves it takes bytes from
  behind the buffer on the stack (`DiskStreams.ReadableExactly`).
- A task resumes with the ten registers it was interrupted with, but its ebp is the kernel's stack pointer
  and its flags are the kernel's; all twelve come back exactly when those are equal
  (`UserReturn.Cpu.TaskReturn`, `Scheduling.TrappedResumes`, `Counterexamples.EbpLost`).
- Removing a task leaves the back link of the one after it on the removed task: the list stays linked both
  ways exactly when the last task is removed (`Tasks.TaskList.ListRemove`, `Counterexamples.BackLinkLeft`).
- Copying a string out of a task never gives the temporary block back: each sys_write that succeeds loses
  one block (`CopyStrings.CopyStringFromTask`). The string arrives exactly when it is intact
  (`CopyStrings.DeliveredExactly`). A loaded program's string that stays off the temporary page arrives
  exactly when it stays, outside the program's own pages, off the low byte of that page's table entry
  (`CopyStrings.ArrivesExactly`, `Counterexamples.EntryArrivesChanged`); one that begins on the temporary
  page, where it was cleared, arrives empty (`CopyStrings.BeginsOnTemporary`).
- Parsing a path loses one block each time: the buffer for the component that turns out to be empty
  (`PathParsing.CreatePathPart`).
- The descriptor encoder panics on limits from 65537 bytes to 1 MiB that a descriptor could express
  (`SegmentDescriptors.RefusedExactly`).
- A drive alone, such as "0:/", is the one text made of a drive and components that is not read back
  (`Paths.ParseRoundTripExactly`, `Counterexamples.DriveAlone`).

## Model

| member | source | states |
|---|---|---|
| PhysicalMemory.Pmm.MemoryMapSet | src/memory/pmm/pmm.c:26-32 | exactly the given block joins the taken ones; no other bit of the map changes |
| PhysicalMemory.Pmm.MemoryMapUnset | src/memory/pmm/pmm.c:34-40 | exactly the given block leaves the taken ones |
| PhysicalMemory.Pmm.MemoryMapTest | src/memory/pmm/pmm.c:42-52 | true if and only if the block is taken |
| PhysicalMemory.Pmm.GetFirstFreeBlock | src/memory/pmm/pmm.c:54-62 | the lowest block of the system that is not taken, -1 if and only if there is none |
| PhysicalMemory.Pmm.AllocateBlock | src/memory/pmm/pmm.c:64-82 | refines the one-block request on the abstract allocator: bitmap, both counters and result, with 32-bit counters |
| PhysicalMemory.Pmm.FreeBlock | src/memory/pmm/pmm.c:86-91 | gives back the block the address lies in and moves both counters by one, with wrap-around |
| PhysicalMemory.Pmm.Init | src/memory/pmm/pmm.c:97-109 | clears as many bits as the map has words, not all of them, then takes the reserved prefix and sets the counters |
| PhysicalMemory.Pmm.CheckRange | src/memory/pmm/pmm.c:111-118 | zero if and only if no block of the range, which may end anywhere in the map, is taken |
| PhysicalMemory.Pmm.GetFirstNBlocks | src/memory/pmm/pmm.c:120-129 | the lowest start from 1 on of n free blocks that leave the last block out, 0 if and only if there is none; for 2^32 - 1 blocks, where the end wraps, the empty range at 1 |
| PhysicalMemory.Pmm.AllocateFirstNBlocks | src/memory/pmm/pmm.c:131-146 | refines the n-block request on the abstract allocator, the marks of a failing one included |
| Frames.AllocOneTakesLowest | src/memory/pmm/pmm.c:54-82 | with block 0 reserved a request fails exactly when nothing is free, changes nothing then, and otherwise takes the lowest free block and keeps the counters equal to the bits |
| Frames.AllocManyTakesLowest | src/memory/pmm/pmm.c:111-146 | an n-block request fails exactly when no run fits, and otherwise takes the lowest run and nothing else, the counters staying equal to the bits |
| Frames.FailedManyHarmlessExactly | src/memory/pmm/pmm.c:131-138 | a failing n-block request changes nothing, and keeps the counters equal to the bits, if and only if blocks 0 to n-1 were taken before |
| Frames.InitAccountedExactly | src/memory/pmm/pmm.c:97-109 | after initialisation the counters equal the bits if and only if the reservation fits the system and no bit beyond the cleared ones was set outside it |
| Frames.FreeCountsClearBits | src/memory/pmm/pmm.c:76-107 | the free counter is the number of clear bits, free and used add up to the system size, and nothing free means everything taken |
| KernelHeap.Kheap.InsertInBigBlocks | src/memory/heap/kheap.c:21-30 | the extent goes to the first empty slot; with none the table is unchanged and the result is the same |
| KernelHeap.Kheap.SearchAddress | src/memory/heap/kheap.c:32-38 | the first slot with this address, -1 if and only if there is none |
| KernelHeap.Kheap.FreeBigBlocks | src/memory/heap/kheap.c:40-52 | every block of the recorded extent is given back and the slot emptied; nothing happens to an address not recorded |
| KernelHeap.Kheap.Kmallac | src/memory/heap/kheap.c:56-68 | refines the request on the abstract heap: bitmap, counters, table and address |
| HeapState.BlocksForExactly | src/memory/heap/kheap.c:56-68 | a request takes the least number of blocks that hold it, and one for an empty request |
| KernelHeap.Kheap.Kfree | src/memory/heap/kheap.c:69-83 | refines freeing on the abstract heap; a misaligned address changes nothing |
| HeapOwnership.MallocKeepsExactly | src/memory/heap/kheap.c:56-68 | a request keeps ownership (live extents apart and outside the reserved prefix, set bits exactly reserved plus live, counters right, every big extent recorded once) if and only if a guard on the state before it holds; what it grants was free |
| HeapOwnership.FreeKeepsExactly | src/memory/heap/kheap.c:69-83 | freeing keeps ownership if and only if the address is misaligned, starts a live extent, or is null while a slot is empty |
| HeapRuns.RunKeepsExactly | src/memory/heap/kheap.c:56-83 | over every run of requests and frees ownership holds in every state if and only if each event met its guard |
| HeapRuns.OwnedByNobody | src/memory/heap/kheap.c:14-19 | with nothing live the heap is, to the last bit, counter and slot, the one right after initialisation, and the other way round |
| HeapRuns.FreedRunRestores | src/memory/heap/kheap.c:40-83 | any interleaving of safe requests and frees that ends with nothing live restores bitmap, counters and table |
| HeapRuns.FreeAllInAnyOrder | src/memory/heap/kheap.c:40-83 | freeing all live extents in any order is safe at every step and restores the initial heap |
| HeapRuns.MallocThenFree | src/memory/heap/kheap.c:56-83 | a successful safe request followed by its kfree is the identity on the heap |
| PageTables.SetEntryRefines | src/memory/paging/paging.c:91-110 | writing one entry in a table in memory is a one-point update of the flat map and touches one table block only |
| PageTables.CallsRefineMap | src/memory/paging/paging.c:66-110 | under every sequence of paging_set calls the tables in memory stand for the flat map those calls describe, and nothing outside the tables changes |
| PageTables.DirectoryFrame | src/memory/paging/paging.c:81-110 | an address space means the same as long as its 1025 blocks are left alone |
| PageTables.MapRangePages | src/memory/paging/paging.c:144-155 | after mapping a range every page of it, counted around the end of the address space, has its physical page and flags, and every other page its old entry |
| Directories.BuiltDirectory | src/memory/paging/paging.c:26-41 | 1024 filled tables make a directory that maps every page to itself with the given flags |
| Directories.NewThenFreeRestores | src/memory/paging/paging.c:16-125 | making a directory, any paging_set calls, and freeing it restores bitmap and counters |
| PagingUnit.Paging.FillTable | src/memory/paging/paging.c:34-37 | the 1024 entries of the table are the identity from the offset on; no other block is touched |
| PagingUnit.Paging.BuildDirectory | src/memory/paging/paging.c:19-41 | succeeds exactly when 1025 blocks are free, takes exactly those it returns, all different and new, and writes no other block |
| PagingUnit.Paging.New4gb | src/memory/paging/paging.c:16-48 | succeeds exactly when 1026 blocks are free and then takes exactly 1026 fresh ones for an identity address space; otherwise every block is used up, only newly taken blocks were written, and, exactly with 1025 free, the word at 0 now holds the directory's address |
| PagingUnit.Paging.GetIndexes | src/memory/paging/paging.c:66-79 | the two indexes of the page, or -1 for a misaligned address and the indexes as they were |
| PagingUnit.Paging.Get | src/memory/paging/paging.c:81-89 | the flat map's entry of the page, of page 0 for a misaligned address |
| PagingUnit.Paging.Set | src/memory/paging/paging.c:91-110 | one entry of memory changes, none for a misaligned address, which is reported |
| PagingUnit.Paging.Map | src/memory/paging/paging.c:138-142 | the page gets physical address and flags or-ed together; with a misaligned address nothing changes |
| PagingUnit.Paging.MapRange | src/memory/paging/paging.c:144-155 | the whole sequence of entries is written, both addresses advancing modulo 2^32, or nothing is |
| PagingUnit.Paging.MapTo | src/memory/paging/paging.c:157-186 | all or nothing: fails exactly on a misaligned address or an end before the start and then changes nothing; otherwise every page of the range is mapped and every other entry kept |
| PagingUnit.Paging.Free4gb | src/memory/paging/paging.c:114-125 | gives back the tables, the directory and the chunk, whatever the entries map |
| PagingUnit.Paging.Switch | src/memory/paging/paging.c:50-54 | the directory becomes the loaded one |
| Loading.AlignIs | src/memory/paging/paging.c:127-135 | rounding a size above a block boundary up covers exactly the blocks the size needs |
| DiskStreams.Disk.ReadBlock | src/disk/disk.c:66-74 | the buffer holds the 512 bytes of the sector |
| DiskStreams.DiskStream.Seek | src/disk/streamer.c:16-19 | the position is the one asked for |
| DiskStreams.DiskStream.ReadSector | src/disk/streamer.c:21-41 | the bytes from the position to the end of its sector land in the buffer, then those behind the one-sector buffer, and nothing else changes |
| DiskStreams.DiskStream.Read | src/disk/streamer.c:21-50 | for every position and total the buffer receives what 512 bytes at a time deliver, the disk's bytes when the read is one the sector buffer allows; nothing outside is written, the position advances by the total, and the recursion ends |
| DiskStreams.ReadableExactly | src/disk/streamer.c:27-41 | a read delivers the disk's bytes, whatever lies behind the buffer, if and only if it begins on a sector boundary or stays within its sector |
| FatChains.ClustersApart | src/fs/fat16/fat16.c:227-230 | clusters lie apart on the disk in the order of their numbers, behind the root directory |
| FatChains.FatBeforeData | src/fs/fat16/fat16.c:111-146 | an entry of any copy of the FAT, and the whole root directory behind it, lie before every cluster |
| FatChains.FatsThenRoot | src/fs/fat16/fat16.c:121-124 | the FATs fill, one after the other, exactly the bytes from the hidden and reserved sectors up to the root directory; an entry is two bytes a cluster from the first one's beginning, and its copy in each FAT ends before the root directory |
| FatChains.RootFitsExactly | src/fs/fat16/fat16.c:116-119 | the root directory's entries of 32 bytes fit the sectors between FATs and data area, and would not fit one fewer |
| FatChains.ClustersFollow | src/fs/fat16/fat16.c:227-230 | cluster 2 begins at the data area and each further one where the one before it ends |
| FatChains.BootVolume | src/boot/boot.asm:9-20 | on the volume of the boot sector the root directory begins at sector 712, the data area at 716, and cluster 3 at 844 |
| FatChains.EntryBytes | src/fs/fat16/fat16.c:244-258 | low and high half of an entry are the first and the second byte at its place, for every entry |
| FatChains.LinksAreEntries | src/fs/fat16/fat16.c:260-303 | each link of a walk that succeeds is the number its entry's two bytes spell, and is none of the six values the code stops at |
| FatChains.EntryInOneSector | src/fs/fat16/fat16.c:244-258 | a two-byte FAT lookup never crosses a sector |
| FatChains.WalkStopsAtMark | src/fs/fat16/fat16.c:268-299 | the walk fails if and only if one of the code's stop values is among the links walked, and once failed it stays so |
| FatChains.OneClusterOn | src/fs/fat16/fat16.c:260-303 | a whole cluster further into the file is exactly one more FAT lookup, stop values included |
| FatChains.WalkFollowsFormatExactly | src/fs/fat16/fat16.c:270-299 | the walk agrees with the FAT16 format at every step if and only if it meets no entry that the two read differently |
| FatChains.ReadIsFileSlice | src/fs/fat16/fat16.c:306-342 | from a cluster boundary and for any length, or inside one cluster, what the reader delivers is the slice of the chain's concatenated clusters |
| FatChains.ReachesExactly | src/fs/fat16/fat16.c:306-335 | such a read succeeds if and only if the chain has every cluster that holds a byte of it; one cluster more is never asked for |
| FatChains.FileBytes | src/fs/fat16/fat16.c:227-303 | byte for byte, where the clusters of the file's chain lie on the disk: the i-th one's r-th byte is at the data area's beginning plus r and its number less 2 clusters |
| FatChains.ReadsInPlaceExactly | src/fs/fat16/fat16.c:306-335 | a read takes every byte from its own place in the file if and only if it begins on a cluster boundary or crosses boundaries between disk neighbours only |
| FatChains.ItemsAreFileSlice | src/fs/fat16/fat16.c:505-525 | several whole-cluster items read one after the other are one slice of the file |
| FatReading.RepairsTail | src/fs/fat16/fat16.c:321-332 | the bytes a call reads beyond its cluster are exactly those the deeper call overwrites |
| FatReading.Fat16.GetFatEntry | src/fs/fat16/fat16.c:244-258 | the 16-bit entry of the cluster as it is on the disk |
| FatReading.Fat16.GetClusterForOffset | src/fs/fat16/fat16.c:260-303 | the element of the chain the offset falls into, or -1 |
| FatReading.ReadableGot | src/fs/fat16/fat16.c:306-335 | what the calls deliver together is the chain's data for every read the sector buffer allows |
| FatReading.Fat16.ReadInternalFromStream | src/fs/fat16/fat16.c:306-335 | succeeds if and only if the chain reaches as far as the read, writes nothing outside the buffer even on failure, and ends; what it delivers is given for every offset, and is the chain's data whenever the sector buffer allows the read |
| FatReading.Fat16.Read | src/fs/fat16/fat16.c:505-525 | all items or -1, exactly when the chain is too short for one of them; nothing outside the buffer is written; what it delivers is given for every offset, and is the chain's data whenever the sector buffer allows each of the reads |
| UserReturn.Cpu.PushFrame | src/task/task.asm:15-49 | the stack holds the saved ip, cs, esp and ss and the kernel's flags with interrupts enabled, where iretd takes them from; the saved registers in memory are untouched |
| UserReturn.Cpu.RestoreGeneralPurposeRegisters | src/task/task.asm:59-71 | every general register is loaded from its word of the struct but ebp, which the last pop puts back to what it was at the call |
| UserReturn.Cpu.TaskReturn | src/task/task.asm:15-71 | user mode goes on with each register from its own word of the twelve in memory, but for ebp, the stack pointer at entry, and the flags, the kernel's own with interrupts enabled; the data segment registers hold the low half of the saved ss |
| Scheduling.EachOnceARound | src/scheduler/scheduler.c:6-11 | over any run with n ticks, whatever system calls come between, each of the n tasks is given the processor at one tick and at no other, and the k-th tick gives it to the k-th task after the one that was running, counted around the end of the list |
| Scheduling.RunAdvances | src/idt/idt.c:91-105 | over every run of the handlers' steps k ticks advance the processor by k places whatever calls come between, no task's directory changes, and the loaded one is the current task's |
| Scheduling.SuspendedKept | src/task/task.c:37-64 | the saved context of a task is untouched until its turn comes again |
| Scheduling.SuspendedResumes | src/idt/idt.c:91-105 | one round of ticks after the tick that interrupted it a task is entered with what its record holds: the frame's registers, all twelve if and only if ebp and flags happen to equal the kernel's |
| Scheduling.TrappedResumes | src/task/task.c:37-64 | a task interrupted in a processor context goes on, one round of ticks later and under its own directory, in that very context but for ebp and the flags, which are the kernel's; in all of it if and only if those were equal |
| Scheduling.CallReturns | src/idt/idt.asm:38-53 | a system call hands back the context it was made in with 0 in eax; that context is what is saved of the caller, and nothing of any other task changes |
| Scheduling.FlagsEntered | src/task/task.asm:31-34 | of the flags a task is entered with exactly bit 9 and the bits of the kernel's own flags are set |
| Tasks.Task.constructor | src/task/task.c:85-104 | a new task starts at 0x400000 with the stack pointer 0x3FF000, the user selectors and every other register 0, and points to its process |
| Tasks.TaskList.Append | src/task/task.c:118-140 | the task becomes the last of an acyclic list in creation order, linked both ways; the first one ever is current |
| Tasks.TaskList.GetNext | src/task/task.c:143-151 | the task after the current one, the head after the last |
| Tasks.TaskList.SaveState | src/task/task.c:37-64 | each of the twelve registers kept for the current task is the interrupt frame's word of that name, and no other task's are touched |
| Tasks.TaskList.Unlink | src/task/task.c:153-168 | the others keep their order; back links stay right if and only if the last task was taken out |
| Tasks.TaskList.ListRemove | src/task/task.c:153-174 | also the current task stays in the list, and is the next one if it was the one removed |
| Tasks.TaskSystem.Switch | src/task/task.c:16-21 | the task is current and the directory its chunk names is loaded |
| Tasks.TaskSystem.Enter | src/idt/idt.c:92-101 | the kernel's directory is loaded and exactly the current task's context replaced by the frame's |
| Tasks.TaskSystem.TimerInterrupt | src/idt/idt.c:91-96 | the objects in memory take the tick step of the abstract machine, with the context it returns |
| Tasks.TaskSystem.RunFirst | src/task/task.c:67-82 | the head of the list is entered with its own directory and the ten registers saved in it |
| Images.LoadedFrame | src/task/process.c:81-99 | a loaded program stays loaded while its own blocks are left alone |
| Images.ThreeMappings | src/task/process.c:81-99 | the program is mapped from 0x400000, the stack below 0x3FF000, and every other page stays mapped to itself and read-only |
| Images.SeesItsFile | src/task/process.c:81-99 | through the task's directory each address 0x400000 + k shows byte k of the program |
| Images.TranslateWalks | src/memory/paging/paging.c:66-89 | an address means what the processor's walk over the words of directory and table makes of it |
| Images.SeesItsStack | src/task/process.c:81-99 | the 16 KiB from 0x3FB000 to the first stack pointer show the four blocks of the stack, in order |
| Images.SeesZeros | src/task/process.c:129-132 | while those blocks are as kzalloc left them, the task reads zeros there |
| Images.WritesOnlyItsOwn | src/task/process.c:81-99 | the blocks user mode can write (section 4.6 of the Intel SDM, volume 3A) are exactly program and stack |
| Images.Isolation | src/task/process.c:81-157 | among all loaded programs the writable blocks of two tasks are disjoint, and meet no page table, chunk, process record or task record of anyone and no block of the kernel's own |
| Kernels.Kernel.Isolated | src/kernel.c:231-234 | the same of the running system, where the kernel's own blocks are the reserved ones and its directory, tables and chunk |
| Images.KernelSeesExactly | src/task/task.c:16-21 | under a task's directory an address of the kernel's means what it means to the kernel if and only if its page is none of the task's own |
| Images.StoreKeepsAll | src/task/process.c:81-99 | a store in user mode keeps every program loaded and changes at most the byte of its own program it was aimed at |
| Loading.OneMoreSpared | src/task/process.c:101-157 | a program loaded into blocks that were free, with blocks in use from the kernel's image on spared, joins the loaded ones and keeps them and the kernel's address space |
| Kernels.Kernel.Memset | src/memory/memory.c:4-10 | exactly the given range of memory holds the value |
| Kernels.Kernel.Kzalloc | src/memory/heap/kheap.c:85-89 | exactly the first size bytes of fresh blocks are cleared or, exactly when the bitmap has no room, the first size bytes of memory; a request that fails is safe if and only if that ends below the kernel's image, and then changes nothing in the heap |
| Loading.HasRoomExactly | src/memory/heap/kheap.c:56-68 | a request succeeds if and only if a block is free or, above 4096 bytes, a run of free blocks lies off the last one |
| Loading.FailedRequestExactly | src/memory/heap/kheap.c:85-89 | a failing request keeps the books and every block in use from the kernel's image on if and only if its size is at most the address where the image begins |
| Loading.SmallRequestsCourteous | src/fs/fat16/fat16.c:471-495 | opening a file with any number of small requests, the table of extents left alone, is what loading asks of it |
| Kernels.Kernel.Boot | src/kernel.c:219-234 | with 1026 blocks free behind the reserved ones, and exactly then, the kernel comes up valid, in its own identity address space, with nothing loaded |
| Kernels.Kernel.ReadInto | src/task/process.c:64-67 | the file's bytes are at the pointer exactly when its chain reaches its end, and no block but those they need is written |
| Kernels.Kernel.LoadBinary | src/task/process.c:45-73 | succeeds exactly when the file opened is not empty, readable to its end, and fits the bitmap that opening left; its bytes are then in fresh blocks; a failure does harm exactly when the request that failed does |
| Kernels.Kernel.TaskInit | src/task/task.c:85-104 | succeeds exactly with 1026 free blocks; the task has an identity address space and its start registers, each given by its value, the two selectors being those that enter user mode |
| KernelSegments.UserSelectorsExactly | src/task/task.h:12-13 | through the kernel's descriptor table, and no matter where the task state lies, 0x1B and 0x23 and no other pair of selectors meet what iretd asks of cs and ss to leave for privilege 3 |
| KernelSegments.NewTaskEnters | src/task/task.c:85-104 | the selectors in the registers of every new task are that pair |
| KernelSegments.InstallGdt | src/kernel.c:186-193 | the six descriptors are written without a panic; 0x08 and 0x10 then name flat code and writable data of privilege 0, 0x28 the task state with its base and limit, and the user's selectors flat code and writable data of privilege 3 |
| Kernels.Kernel.NewTask | src/task/task.c:108-141 | succeeds exactly when record and address space fit; the task is the last of the list, everything else in use untouched |
| Kernels.Kernel.TaskFree | src/task/task.c:176-184 | address space and record are given back, the task leaves the list, the rest keeps its order |
| Kernels.NewTaskThenFree | src/task/task.c:108-184 | with an owned heap, making a task, any mapping calls on its address space, and freeing it restores the heap |
| Kernels.Kernel.MapMemory | src/task/process.c:81-99 | the address space is exactly the expected one, in the same tables |
| Kernels.Kernel.NewRecord | src/task/process.c:117-125 | two fresh blocks, cleared as far as the record reaches |
| Kernels.Kernel.ReadProgram | src/task/process.c:117-131 | succeeds exactly when record and program fit, one before and one after the file is opened, and the file can be read to its end |
| Kernels.Kernel.AllocateProgram | src/task/process.c:117-136 | also the stack, with success and harm decided by heap, memory and file name before the call |
| Kernels.Kernel.Allocate | src/task/process.c:117-146 | also the task; whatever the outcome, blocks in use from the kernel's image on are as they were exactly when the failing request is harmless; what a failure leaves taken is given case by case |
| Kernels.Kernel.MapLoaded | src/task/process.c:147-156 | with its pages mapped the program is loaded and every earlier one still is |
| Kernels.Kernel.LoadForSlot | src/task/process.c:101-157 | succeeds exactly when the slot is free, the file can be read to its end and the bitmap has room for each request in turn; then one more program is loaded from the file, its stack all zeros, its record naming program and stack, its task last in the list; one that fails leaves the heap as given for each case, nothing handed back, and the books and all in use from the kernel's image on as they were exactly when the request that failed ends below the image; then every program loaded before is intact |
| Kernels.Kernel.FailedLoadLoses | src/task/process.c:101-157 | the number of blocks a harmless failing load costs: none when the record does not fit, its two and what opening took when the program does not, the program's as well when the file cannot be read or the stack does not fit, and all there are when the task does not |
| Kernels.Kernel.OnlyBigFilesHarm | src/task/process.c:101-157 | with the image 16 KiB or more above 0, a load does harm if and only if the request for the program fails and reaches into the image |
| Kernels.Kernel.GetFreeSlot | src/task/process.c:27-34 | the lowest free slot, -1 if and only if all are used |
| Kernels.Kernel.Load | src/task/process.c:36-43 | the program goes to the lowest free slot, with the same exact conditions for success and for harm |
| Loading.HousedSpared | src/task/process.c:101-157 | a change that spares the blocks in use behind the first n, n at most the reserved ones, keeps the kernel's address space and all loaded programs |
| Kernels.LoadedTaskSeesFile | src/task/process.c:45-157 | end to end: byte k of the clusters of the file's chain on the disk is what the task reads at 0x400000 + k |
| Kernels.Kernel.ProcessSeesItsFile | src/task/process.c:45-157 | the same of the running system, in every valid state: the task of every program whose bytes are still its file's reads that file through the directory its chunk names |
| CopyStrings.StrncpyFromTask | src/task/task.c:203-204 | with the task's directory loaded the temporary block receives, byte by byte, what the copy reads while it writes that very block, and a NUL; nothing else is written |
| CopyStrings.Strncpy | src/string/string.c:84-97 | source bytes without a NUL among them, fewer than count and followed by a NUL, arrive whole with that NUL; of a longer string exactly the first count - 1 bytes and a NUL; no other byte changes |
| CopyStrings.EntryPutBack | src/task/task.c:201-206 | mapping the temporary block, writing it and restoring the entry leaves every byte outside that block, and the whole translation, as it was |
| CopyStrings.FetchString | src/task/task.c:196-206 | the string as copied is in the temporary block, one block more is taken, and no other byte of memory has changed |
| CopyStrings.CopyStringFromTask | src/task/task.c:192-216 | -1 exactly for more than a page or no free block, the heap unchanged then; otherwise the destination holds the string the task saw if and only if it is intact, for a loaded program's string off the temporary page if and only if it is off the entry's low byte, and then every string of fewer than max bytes is there whole with its NUL, and of a longer one the first max - 1 bytes and a NUL; the temporary block stays taken, no byte outside it and the destination changes, the translation is as before, and with the destination in reserved blocks behind the image's first every program stays loaded |
| CopyStrings.DeliveredWhole | src/task/task.c:192-216 | what is delivered, byte for byte: a string the task sees and its NUL, or the first max - 1 bytes of a longer one |
| CopyStrings.OwnStringIntact | src/task/task.c:192-216 | a string that lies in the program's own bytes is the one its task sees, and is intact wherever the temporary block lies off the task's own pages |
| CopyStrings.ArrivesExactly | src/task/task.c:196-213 | the condition on addresses: a loaded program's string that stays off the temporary page is intact if and only if no byte looked at is, outside the program's own pages, the low byte of that page's entry |
| CopyStrings.DeliveredExactly | src/task/task.c:203-213 | what the copy made is the string the task saw if and only if every byte it looks at reads, when the copy comes to it, as it did before |
| CopyStrings.LoadedIntact | src/task/task.c:196-206 | off the temporary page, exactly the bytes of that page's table entry that mapping changes are not intact, and only where the task sees them outside its program and stack |
| CopyStrings.LoadedAway | src/task/task.c:196-206 | while the temporary block is no page of program or stack, that is one byte of memory, the low byte of the entry |
| CopyStrings.ReachesEntry | src/task/task.c:196-206 | a string that reaches that byte does not arrive |
| CopyStrings.BeginsOnTemporary | src/task/task.c:196-204 | a string that begins on the temporary page, as far as kzalloc cleared it, arrives empty |
| Traps.FrameArrivesExactly | src/idt/idt.asm:55-70 | the frame an interrupt pushes through a task's directory is what the handlers find on the kernel's stack if and only if page 0x5FF is none of the task's own or it lay there before; otherwise it goes into the program |
| SystemCalls.Interrupts.Trap | src/idt/idt.asm:55-70 | with page 0x5FF none of the task's own each word below the top of the kernel's stack is the register of the interrupted context the C struct has there, the handlers find that context, and only that page is written |
| Traps.TrapLayout | src/idt/idt.asm:55-70 | the thirteen words of the frame by their offsets: what the processor pushes, ss first, and what pushad pushes below it |
| SystemCalls.Interrupts.TimerInterrupt | src/idt/idt.c:91-96 | in the running kernel a tick takes the step of the abstract machine: the context the processor was in is what is kept of the interrupted task, and the next task in the list goes on in the context kept of it but for ebp and flags, where its record is seen; every program stays loaded |
| SystemCalls.Interrupts.Store | src/task/process.c:81-99 | in user mode a store changes one byte of the current task's own program or stack, or faults and changes nothing; every program stays loaded |
| SystemCalls.Interrupts.RunFirst | src/task/task.c:67-82 | user mode begins with the first task and its directory, in exactly the registers of its record but for ebp and flags, where that is seen |
| SystemCalls.Interrupts.CurrentSees | src/task/process.c:81-99 | in user mode a load from 0x400000 + k through the loaded directory gives byte k of the current task's program |
| SystemCalls.Interrupts.Run | src/idt/idt.c:91-105 | any run of interrupts, system calls and user stores takes the kernel through the states of the abstract machine and keeps every program loaded; each byte of a program ends as what its own task stored there last, or as it was |
| SystemCalls.Interrupts.HandleCommand | src/isr80h/misc.c:14-21 | sys_write copies the string at ebx to a buffer on the kernel stack as copy_string_from_task does; every saved context, chunk and directory and the frame on the stack are kept and every program stays loaded; other commands change nothing |
| SystemCalls.OwnStringWritten | src/isr80h/misc.c:14-21 | sys_write on a string of fewer than 512 bytes in the program's own bytes puts it, whole and with its NUL, into the buffer, provided a block is free and lies off the task's own pages |
| SystemCalls.Interrupts.SystemCall | src/idt/idt.c:98-105 | with that effect on memory, the caller goes on in the very context of its call with 0 in eax; that context is what is kept of it; its own directory is loaded and the machine takes the abstract step |
| Paths.ParseRoundTrip | src/fs/path_parser.c:9-80 | a digit and a non-empty list of components come back from the text made of them, with or without a slash at the end |
| Paths.ParseRoundTripExactly | src/fs/path_parser.c:9-80 | drive and components come back if and only if there is a component |
| Paths.DriveExactly | src/fs/path_parser.c:9-27 | a text has a drive if and only if it is a digit, a colon, a slash and something more, and the drive is that digit; any other text is all components |
| Paths.PartsOfJoin | src/fs/path_parser.c:36-72 | splitting undoes joining, and uses up the whole text |
| Paths.JoinOfParts | src/fs/path_parser.c:36-72 | for every text the joined components are its beginning, and what follows is nothing, a final slash, or an empty component |
| Paths.FullyParsedExactly | src/fs/path_parser.c:36-72 | a text is the join of its components if and only if it is the join of any components |
| PathParsing.Strnlen | src/string/string.c:16-25 | the length of the string, or max when it is longer |
| PathParsing.PathValidFormat | src/fs/path_parser.c:9-19 | true if and only if the text is a digit, a colon, a slash and something more |
| PathParsing.GetDriveByPath | src/fs/path_parser.c:21-27 | the drive and the pointer behind the slash, or -1 and the pointer where it was |
| PathParsing.CopyComponent | src/fs/path_parser.c:36-45 | the buffer holds what precedes the slash or the NUL, terminated |
| PathParsing.GetPathPart | src/fs/path_parser.c:36-57 | a fresh node with the component, null if and only if it is empty; the slash behind it is used up; two blocks are taken, or one lost |
| PathParsing.CreatePathPart | src/fs/path_parser.c:59-72 | a list of different nodes, one for each component in order, the pointer behind what was parsed, and one block more than two for each node taken |
| PathParsing.PathparserParse | src/fs/path_parser.c:74-80 | the drive and the list of components of the text |
| PathParsing.ParseWritten | src/fs/path_parser.c:9-80 | the parser, set on a drive and components written out, returns that drive and a list that spells those components |
| SegmentDescriptors.RoundTripExactly | src/gdt/gdt.c:5-33 | section 3.4.5 of the Intel SDM, volume 3A, reads base and type back always, and the effective limit if and only if the encoder accepts it |
| SegmentDescriptors.RefusedExactly | src/gdt/gdt.c:7-10 | which expressible limits make the kernel panic |
| SegmentDescriptors.ExpressibleExactly | src/gdt/gdt.c:12-22 | the limits some descriptor has |
| SegmentDescriptors.EncodeGdtEntry | src/gdt/gdt.c:5-33 | writes the eight bytes of the descriptor and no others; panics exactly on the limits not accepted, before writing |
| SegmentDescriptors.GdtStructuredToGdt | src/gdt/gdt.c:35-41 | the processor reads every entry of the table as it was written down, for a table of any length |
| Counterexamples.FailedRequestLeavesMarks | src/memory/pmm/pmm.c:131-138 | four blocks and a request for three leave marks that are not counted |
| Counterexamples.FullTableLosesBlocks | src/memory/heap/kheap.c:21-30 | in an owned heap with 100 extents in the table, two blocks more are handed out and one comes back |
| Counterexamples.LinkTakenForEnd | src/fs/fat16/fat16.c:271-276 | a chain that goes on at cluster 0xFF8 is cut there |
| Counterexamples.ReadBehindCluster | src/fs/fat16/fat16.c:315-326 | clusters 2 and 5, a read of 1024 bytes from offset 512: zeros arrive where the file has ones |
| Counterexamples.FailedRequestClears | src/memory/heap/kheap.c:85-89 | at the boot values with every block in use: a failing request for 1 MiB changes nothing, for one byte more it clears the first byte of the kernel |
| Counterexamples.FrameLost | src/kernel.c:242 | a program of 2 MiB: the frame goes into it, and the kernel's stack is as it was |
| Counterexamples.NullChunkStored | src/memory/paging/paging.c:44-45 | 1026 blocks, one reserved: the call fails and the first word of memory is no longer 0 |
| Counterexamples.EbpLost | src/task/task.asm:59-71 | the instructions, set on saved registers with ebp 1 and a stack pointer of 200, end with ebp 200 |
| Counterexamples.BackLinkLeft | src/task/task.c:153-174 | of two tasks the first is removed: the second still points back to it |
| Counterexamples.EntryArrivesChanged | src/task/task.c:196-206 | in every loaded program's task the one-byte string at the temporary page's entry is seen as 5 and arrives as 7 |
| Counterexamples.DriveAlone | src/fs/path_parser.c:9-19 | "0:/" is taken for the one component "0:" without a drive |
| Counterexamples.ByteLimitRefused | src/gdt/gdt.c:7-10 | a limit of 70000 can be described and is refused |

## Left out

- Port I/O, ATA commands and polling, PIC, PIT, lidt, lgdt, ltr and the boot loader: effects of hardware. CR3 is a field, and CR0.WP is clear, as the kernel leaves it, so that the kernel writes through read-only pages; the disk is an immutable map of bytes whose reads succeed.
- Terminal output, with the screen's memory below 1 MiB, kernel_main but for its descriptor table, and the commented-out heap: user interface, glue, and code that is not live.
- VFS dispatch, descriptor slots, directory lookup and short names: what fopen and fstat do with a name is an unknown function of heap and memory (`FileName`). It may take blocks and write them, but is held to leave what is in use from the kernel's image on alone, to keep the counters right and the table in range, and to find files below 2 GiB. That the code joins the two halves of the first cluster with an or instead of a shift stays outside.
- Files, requests and read positions of 2 GiB and more, where the C code's signed sizes change sign, and a negative max of copy_string_from_task.
- Memory of 4 GiB and more in process loading; physical addresses without memory behind them read as 0xFF and lose what is written.
- The kernel's variables are objects: the bytes of its image in RAM stand for the rest of it, of which the proofs use the first, not zero, being part of an instruction. Code and variables are taken to lie below 0x3FB000, where every task's directory shows them. Of its stack they use the interrupt frame and the buffer of sys_write.
- Kernels.Kernel.Kzalloc: after a request that has cleared part of the kernel's image the objects go on as they were; the code has lost them.
- Kernels.Kernel.Boot: the few blocks the file system takes for itself before the kernel's address space is made are not counted, and with too few blocks the model stops where the code goes on with a null chunk.
- A page fault in user mode changes nothing and is not followed further.
- Process and task records are objects: their blocks are allocated and cleared in RAM, their fields are not stored there. The filename field is left out. For the assembly that reads them, the saved registers are twelve words in RAM; where a task sees its record elsewhere, its registers are read from there.
- `process_map_memory` maps the stack twice and ignores whether mapping worked; the model does the same, and mapping cannot fail on what loading hands it.
- Tasks.TaskList.ListRemove: one removal from a list linked both ways; a second one would start from stale back links.
- SegmentDescriptors.EncodeGdtEntry: a panic is the result false, after which the table is not used.
- SystemCalls.Interrupts.TimerInterrupt: requires, as SystemCall does, that the stack's pages are none of the tasks' own; the code checks nothing of the kind, and what it does on a stack that is not there is not followed.
- SystemCalls.Interrupts.SystemCall: command 0 panics and never returns, every other command returns 0. Printing what sys_write copied is left out.
- PathParsing.PathparserParse: kzalloc is taken to succeed, and every component to fit the block of 4096 bytes it hands out for a buffer; the code checks neither.
- UserReturn.Cpu.TaskReturn: the saved registers are taken to lie clear of the 32 bytes of stack the code uses below its entry. The write to the interrupt controller's port is left out.
