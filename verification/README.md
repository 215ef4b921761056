# A verified model of the potato-OS kernel

potato-OS is a small 32-bit x86 kernel. This project models its memory, process, file and terminal code in
Dafny and proves what that code is for: that lazily paged programs see exactly the bytes their ELF image
prescribes, that the TLB never lies, that no physical frame is shared or lost, that the scheduler keeps one
well-formed ring and starves nobody, that the heap always is one canonical tiling of its array, that files and
directories are flat in spite of zones, blocks and DMA chunks, and that terminal and console deliver what was
typed and printed.

Every area comes in two layers. A specification on values (`HeapSpec`, `SchedSpec`, `Vm`, `MmapSpec`, `Elf`,
`DiskSpec`, `FsSpec`, `ConsoleSpec`, `TtySpec`) says what an operation does, and lemmas prove the properties of
single steps and of whole runs about it. Classes (`Heap`, `Scheduler`, `Machine`, `Memory`, `AddressSpace`,
`Disk`, `Fs`, `Console`, `Tty`) carry the kernel's own fields, loops and pointer writes and are proved equal to
the specification, state and result. Structs that the kernel links by address (heap headers, tasks, memory
areas) are a map from addresses to structs, so that an access to freed memory is an error.

| files | kernel code |
|---|---|
| `Heap.dfy` | `heap.c` |
| `SchedSpec.dfy`, `SchedSteps.dfy`, `SchedWaiting.dfy`, `Sched.dfy` | `sched.c` |
| `ContextSwitch.dfy` | `switch_to`, `enter_user_task`, `prepare_user_task_stack` |
| `Vm.dfy`, `VmProofs.dfy`, `VmOwnership.dfy`, `Kernel.dfy` | `memory.c`, `paging.c`, `fault.c`, `process.c` |
| `Mmap.dfy`, `HeapRuns.dfy` | `mmap.c` and the heap side of `release_mm` |
| `Elf.dfy`, `ElfFormat.dfy`, `Loading.dfy`, `LoadOutcome.dfy` | `elf.c`, `elf.h` |
| `System.dfy`, `SystemProofs.dfy`, `SystemRuns.dfy` | tasks with address spaces, `create_task`, `sys_execve`, exit |
| `KernelStores.dfy`, `KernelPadding.dfy`, `SystemCalls.dfy` | stores of the kernel through pointers it is given: `sys_read`, `padzero` |
| `KernelRuns.dfy` | scheduler, memory system and context switch as one machine |
| `Disk.dfy`, `FsSpec.dfy`, `FsLayout.dfy`, `FileSystem.dfy`, `FileBacking.dfy` | `disk.c`, `fs.c`, and files as the loader and the fault handler read them |
| `Console.dfy`, `Tty.dfy` | `console.c`, `tty.c` |

The main theorems:

- `SystemRuns.DemandPagingIsEager`, with `TlbNeverLies`, `NothingLeaks` and `RunIsolates`, over every run of
  TLB fills and evictions, task switches, loads, stores, faults, exits, execves, task creations and stores of the
  kernel for a task.
- `SystemProofs.ExecveKeeps`: an execve is refused with everything as it was, or replaces exactly one address
  space by one that holds the complete image, frame for frame and table for table; `LoadOutcome.ExecveOutcome`
  says exactly when it is which. Segments lie between 4 MiB and 0xc0000000 in both.
- `SystemCalls.ReadKeeps`, `ReadDelivers` and `ReadIsolates`: what a `sys_read` does for every buffer, and exactly when
  it is harmless; `KernelPadding.SegmentExact`: exactly when loading a segment, wherever it lies, is harmless to others.
- `KernelRuns.ResumedAsLeft`, `KernelRuns.FirstRunEntersUser` and `KernelRuns.OneTaskRuns` over runs of scheduler, memory system and stacks together.
- `HeapRuns.StructsPlaced` and `HeapRuns.ReleaseTakesExactly`: over every run, release_mm takes exactly one address
  space out of the heap.
- `ElfPrograms.ProgramSeesFile` and `ElfPrograms.EntersProgram`: the same in terms of the bytes of an ELF file, and
  `LoadOutcome.ExecveAreas`: an address space has its image, its stack page and nothing else.
- `SchedSpec.StepKeepsInv`, `SchedWaiting.BoundedWaiting` and `SchedWaiting.FreedOnce`, with `SchedSteps.StepStates`,
  `StepMemory` and `StepRuns`, which say of every call what it does to states, memory and processor.
- `ContextSwitch.SwitchRestores` and `ContextSwitch.FirstSwitchEntersUser`.
- `HeapSpec.CanonicalUnique`, from which `FreeUndoesMalloc`, `FreeOrderIrrelevant` and `FreeEverything` follow,
  `MallocComplete`, `MallocUnique` and `RunSeparatesPayloads`.
- `FileSystem.Fs.VfsRead` and `FileSystem.Fs.VfsOpen` on top of `DiskDriver.Disk.Read`, with
  `FsSpec.WalkIsLookup`, `FsSpec.FindIsFirst` and `FsSpec.ReadsCompose`, and on a disk with a given layout
  `FsLayout.OpenFollows` and `FsLayout.ContentIsBlocks`.
- `ConsoleSpec.PrintShowsRows` and `TtySpec.DeliversWhatWasTyped`.

What the environment contributes is a parameter of the step concerned and ranges over all its values: whether
`kmalloc` had room, whether a file could be opened, how a read ended and what bytes a failed one left behind,
which translation the processor caches or drops, which key comes in between two instructions of the reader.

The kernel's types are those of i386: pointers and `uint32_t` are 32 bits wide, and sums that can wrap are
written with `% WORD`. Heap headers take 12 bytes and requests are rounded up to 8 bytes, so payloads are
4-byte and not 8-byte aligned.

Where the code falls short of what one would expect of it, the exact condition is proved: a zombie is freed
exactly when it keeps the dead slot until the next tick (`SchedSteps.ZombieIsFreed`, `SchedSteps.LostZombieStays`),
requests above
0xfffffff8 wrap to zero bytes (`HeapSpec.AlignUpCovers`), the disk addresses a sector modulo 2^28
(`DiskSpec.RegsCarryLba`), the 256th pending key makes the terminal ring look empty (`TtySpec.PushFits`,
`TtySpec.OneKeyTooMany`), a load succeeds exactly when the image's areas are clear of each other
(`LoadOutcome.LoadSucceedsWhenClear`), and the kernel stores through pointers that it does not check. `sys_read` keeps
the guarantees exactly when it changes no entry of a page table in use (`SystemCalls.ReadKeeps`), and then leaves
what the other tasks see exactly when all that it leaves in kernel memory was there before or there are no others
(`SystemCalls.ReadIsolates`), with a failing input for each (`SystemCalls.ReadIntoTable`, `SystemCalls.ReadIntoKernel`); a segment may be loaded without harm
to others exactly when the tail that `padzero` zeroes is not in a kernel page, or was zero already, or there
are no others (`KernelPadding.SegmentExact`).

## Model

| member | source | states |
|---|---|---|
| HeapSpec.AlignUpCovers | kernel/heap.c:35-38 | rounding a request up to 8 bytes in 32 bits covers the request exactly when it is at most 0xfffffff8, wasting less than 8 bytes; a larger one becomes 0 |
| HeapSpec.CanonicalUnique | kernel/heap.c:9-78 | a tiling without neighbouring free blocks is determined by its allocated blocks: two canonical lists with the same allocations are the same list |
| HeapSpec.MallocKeeps | kernel/heap.c:20-54 | an allocation keeps the whole array tiled, aligned to 4 and coalesced; on success it adds exactly one allocated block, of at least the rounded size and less than 20 bytes more, at the returned pointer |
| HeapSpec.MallocComplete | kernel/heap.c:40-54 | kmalloc returns 0 exactly when no contiguous free extent of the array holds a header plus the rounded request |
| HeapSpec.MallocTakes | kernel/heap.c:20-54 | a successful kmalloc takes the lowest free extent that is large enough: exactly the rounded size when a header and 8 bytes fit behind it, and the whole gap otherwise |
| HeapSpec.MallocUnique | kernel/heap.c:20-54 | every canonical list that takes a request in that way is the list that kmalloc leaves |
| HeapSpec.FreeKeeps | kernel/heap.c:56-78 | freeing a live pointer keeps the canonical form and removes exactly that block from the allocated ones |
| HeapSpec.FreeUndoesMalloc | kernel/heap.c:40-78 | kfree(kmalloc(n)) restores the exact block list |
| HeapSpec.FreeOrderIrrelevant | kernel/heap.c:56-78 | the list left by freeing a set of pointers does not depend on the order of the frees |
| HeapSpec.FreeEverything | kernel/heap.c:9-18 | freeing every live pointer gives back the single block of a fresh heap |
| HeapSpec.StepKeepsInv | kernel/heap.c:40-78 | every kmalloc and every kfree of a live pointer keeps the list canonical and every live block at least as large as its request, for requests up to 0xfffffff8, and less than 20 bytes larger than the rounded one |
| HeapSpec.RunKeepsInv | kernel/heap.c:9-78 | the same over every run of kmalloc and kfree calls |
| HeapSpec.RunSeparatesPayloads | kernel/heap.c:9-78 | after every run from a fresh heap the live payloads lie in the array, behind their headers, word-aligned and pairwise disjoint, large enough for requests up to 0xfffffff8, and less than 20 bytes larger than the rounded one |
| Heap.Heap.constructor | kernel/heap.c:9-18 | init_heap leaves one free block behind one header |
| Heap.Heap.SplitBlock | kernel/heap.c:20-33 | splits a linked header in place; the list becomes the split of the block list, and a remainder too small for a header is not split off |
| Heap.Heap.Kmalloc | kernel/heap.c:40-54 | the loop over the linked headers computes the first-fit allocation on the block list, result and new list |
| Heap.Heap.MergeNext | kernel/heap.c:56-70 | merging a free block with its free successor relinks the headers accordingly |
| Heap.Heap.CoalesceFreeBlocks | kernel/heap.c:56-70 | the loop over the linked headers merges every run of free blocks |
| Heap.Heap.Kfree | kernel/heap.c:72-78 | marking and coalescing in place is the free of the block list |
| SchedSpec.Scan | kernel/sched.c:55-66 | the search finds the first ready or running task other than idle, and everything passed over is not runnable |
| SchedSpec.NextRuns | kernel/sched.c:48-67 | the chosen task is on the ring, and runnable or the idle task |
| SchedSpec.ReapKeeps | kernel/sched.c:159-169 | reaping keeps the scheduler invariant: the ring distinct and rooted at idle, one running task, the dead slot a zombie on the ring |
| SchedSpec.ScheduleKeeps | kernel/sched.c:222-238 | schedule keeps the invariant |
| SchedSpec.BlockKeeps | kernel/sched.c:188-211 | block_task keeps the invariant, and when it leaves the current task the next one is another: the spin branch cannot be reached |
| SchedSpec.ExitKeeps | kernel/sched.c:240-270 | exit keeps the invariant and another task runs afterwards |
| SchedSpec.StepKeepsInv | kernel/sched.c:69-270 | every create, enqueue, schedule, block, wake and exit keeps one ring with the idle and the current task on it and the current task as the only running one |
| SchedSpec.Run | kernel/sched.c:69-294 | the invariant holds after every run |
| SchedWaiting.NextIsCloser | kernel/sched.c:48-67 | the task chosen next is strictly closer along the ring to every waiting task than the current one is |
| SchedWaiting.StepCloser | kernel/sched.c:188-270 | a waiting task stays waiting and comes at least one place closer with every switch and moves away at most one place with every enqueue, or it gets the processor; a tick, a block of the current task and an exit always switch |
| SchedWaiting.BoundedWaiting | kernel/sched.c:48-270 | over every run, a ready task that nobody blocks gets the processor within (ring distance + enqueues meanwhile) switches |
| SchedWaiting.StepReapsSafely | kernel/sched.c:159-186 | a step other than a creation frees at most one task: a zombie, off the ring afterwards, neither the task that was current nor the one that becomes current; nothing else enters or leaves memory |
| SchedWaiting.RunReapsSafely | kernel/sched.c:159-270 | the same for every step of every run |
| SchedWaiting.FreedOnce | kernel/sched.c:105-169 | over every run from boot, with memory of freed tasks handed out again: each address is freed exactly as often as a task was created there, but for the one in use; every free is safe and the idle task is never freed |
| SchedWaiting.ZombieNeverRuns | kernel/sched.c:229-238 | a zombie stays one until it is freed, so the assignment after a switch never revives it |
| SchedSteps.StepStates | kernel/sched.c:69-270 | what each of the six calls does to the state of each task: a preempted task becomes ready, a blocked one blocked, an exited one a zombie, a woken or enqueued one ready, and no other changes |
| SchedSteps.StepMemory | kernel/sched.c:69-186 | a tick and the current task blocking free the task in the dead slot, its place on the ring and its memory; no other call frees anything; an enqueue adds the task at the end of the ring |
| SchedSteps.StepRuns | kernel/sched.c:48-67 | the processor changes hands only on a tick, an exit or the current task blocking, and goes to the nearest waiting task along the ring, or stays, or goes to the idle task when nobody waits |
| SchedSteps.ZombieIsFreed | kernel/sched.c:159-186 | a zombie in the dead slot is freed by the next tick, unless another task exits before |
| SchedSteps.ExitIsFreed | kernel/sched.c:248-270 | a task that exits is gone after the next tick, unless another one exits before |
| SchedSteps.LostZombieStays | kernel/sched.c:267 | a zombie that is not in the dead slot is never freed |
| SchedSteps.SecondExitLoses | kernel/sched.c:267 | a second exit with nothing reaped in between: the first zombie is never freed |
| SchedSteps.BlockedUntilWoken | kernel/sched.c:188-220 | a blocked task never gets the processor before it is woken |
| SchedSteps.WokenWaits | kernel/sched.c:213-220 | a woken task waits for the processor |
| SchedSteps.EnqueuedWaits | kernel/sched.c:69-103 | an enqueued task waits for the processor, at the end of the ring |
| Scheduler.AppendCircular | kernel/sched.c:89-94 | splicing a struct in after task_ptr keeps prev and next inverse along the whole ring |
| Scheduler.UnlinkCircular | kernel/sched.c:121-133 | splicing a struct out keeps prev and next inverse and leaves its own links null |
| Scheduler.Scheduler.Unlink | kernel/sched.c:119-133 | the branch for a ring of several tasks, the idle task and the current one included |
| Scheduler.Scheduler.constructor | kernel/sched.c:272-294 | a fresh scheduler is the idle task on a ring of its own |
| Scheduler.Scheduler.CreateTask | kernel/process.c:123-126 | a zeroed struct at an unused address is a new task on no ring |
| Scheduler.Scheduler.Search | kernel/sched.c:55-66 | the do-while loop over next pointers ends where the search on the ring ends |
| Scheduler.Scheduler.NextTask | kernel/sched.c:48-67 | the pointer search returns the next task of the ring |
| Scheduler.Scheduler.DequeueTask | kernel/sched.c:105-135 | null and unlinked tasks are refused; otherwise the ring loses exactly that task, task_ptr stays at its end, and the current task passes to the successor, or to nobody when the ring was the task alone |
| Scheduler.Scheduler.EnqueueTask | kernel/sched.c:69-103 | refuses null, linked and non-new tasks; otherwise the task is last on the ring, running if nobody was |
| Scheduler.Scheduler.ReapDeadTask | kernel/sched.c:159-169 | frees the memory of the dead task after taking it off the ring, unless it is prev |
| Scheduler.Scheduler.ContextSwitch | kernel/sched.c:171-179 | reaps, and makes next the running current task |
| Scheduler.Scheduler.Resumed | kernel/sched.c:237 | the assignment after the switch changes nothing, for the resumed task is marked as running already |
| Scheduler.Scheduler.WakeTask | kernel/sched.c:213-220 | only a blocked task becomes ready |
| Scheduler.Scheduler.BlockTask | kernel/sched.c:188-211 | the whole new scheduler state of block_task on linked structs |
| Scheduler.Scheduler.Schedule | kernel/sched.c:222-238 | the whole new scheduler state of schedule on linked structs |
| Scheduler.Scheduler.ExitTask | kernel/sched.c:248-268 | the scheduler part of exit_task: the task becomes the dead zombie with its exit code and another one runs, on linked structs |
| ContextSwitch.Machine.SwitchTo | kernel/sched.c:137-157 | the thirteen instructions, one by one, swap registers and stacks as the two saved stack pointers say |
| ContextSwitch.Machine.PrepareUserTaskStack | kernel/process.c:165-181 | the eleven pushes lay the words down one by one and store the resulting stack pointer |
| ContextSwitch.PreparedReads | kernel/process.c:165-181 | what switch_to and then enter_user_task find in a prepared stack: zeroed registers, the address of enter_user_task, and exactly the given user state |
| ContextSwitch.Machine.EnterUserTask | kernel/sched.c:296-317 | the instructions up to iret load the user state from the frame |
| ContextSwitch.StackSurvives | kernel/sched.c:137-157 | while a task is neither current nor prepared, no event changes its stack or saved stack pointer |
| ContextSwitch.SwitchRestores | kernel/sched.c:137-157 | over every interleaving on disjoint stacks, a task switched out and later switched to has its ebp, ebx, esi, edi, esp, return address and live stack as they were |
| ContextSwitch.FirstSwitchEntersUser | kernel/process.c:165-181 | over every interleaving, the first switch to a prepared task lands in enter_user_task, whose iret loads exactly the given eip, cs, eflags, esp and ss |
| Vm.FirstFree | kernel/memory.c:27-38 | the scan gives the first unused slot, everything before it being in use |
| Vm.FindArea | kernel/fault.c:31-42 | a found area is on the list and covers the page |
| VmProofs.EnsureTableKeeps | kernel/fault.c:67-77 | adding a table for an absent directory entry keeps the invariant and every byte that any address space holds or would be given, and leaves the faulting page unmapped |
| VmProofs.AddTableWalks | kernel/fault.c:67-77 | a new table changes no translation |
| VmProofs.AddPageWalks | kernel/fault.c:78-83 | mapping a page changes the translation of that page of that directory and no other |
| VmProofs.FaultKeeps | kernel/fault.c:44-105 | a fault, resolved or not, keeps the invariant and every byte that any address space holds or would be given; a resolved one leaves the page mapped, a failed one gives its frame back |
| VmProofs.FaultMaps | kernel/fault.c:44-105 | mapping the page to an unused frame with its fill keeps the invariant and every byte that any address space holds or would be given, and maps the page |
| VmProofs.CreateMmKeeps | kernel/process.c:18-42 | a new address space keeps the invariant, is not the loaded one, and translates exactly as the boot directory does |
| VmProofs.SetCr3Keeps | kernel/paging.c:77-85 | loading a live directory and flushing the TLB keeps the invariant |
| VmProofs.ReleaseKeeps | kernel/process.c:79-104 | releasing an address space that is not loaded keeps the invariant and every byte of the others |
| VmOwnership.FramesHaveOneOwner | kernel/fault.c:61-83 | a frame above the kernel's 1024 is in use exactly when some page of some address space maps it, and no two pages map the same frame |
| VmOwnership.TablesHaveOneOwner | kernel/fault.c:68-77 | a table is in use exactly when one user entry of one address space names it, and no two do |
| VmOwnership.ReleaseFreesExactly | kernel/process.c:79-103 | release_mm frees exactly the frames and tables that this address space maps and its directory, and no kernel frame |
| VmOwnership.UseDetermined | kernel/memory.c:27-49 | with the same address spaces undisturbed, exactly the same frames, tables and directories are in use |
| VmOwnership.OneMoreGrows | kernel/process.c:30-42 | with one address space more, exactly its frames, tables and directory are in use besides, and all of them were free before |
| VmOwnership.GrownThenLess | kernel/syscall.c:110-117 | an address space in the place of another: exactly the memory of the old one is free again, exactly that of the new one is taken, and it was free before |
| VmOwnership.FaultUndisturbs | kernel/fault.c:44-105 | a fault of one address space leaves areas, entries, translations and bytes of every other as they were |
| VmOwnership.ReleaseUndisturbs | kernel/process.c:79-103 | a release leaves every other address space as it was |
| VmOwnership.StoreChangesOneByte | kernel/fault.c:78-83 | a store through a user mapping changes one byte of one address space and nothing else: no frame is shared |
| Kernel.Memory.AllocPhysFrame | kernel/memory.c:27-38 | the loop takes the first free frame and marks it, or reports none |
| Kernel.Memory.FreePhysFrame | kernel/memory.c:40-49 | clears one bit, never one of the kernel's |
| Kernel.Memory.AllocPt | kernel/paging.c:38-50 | the first unused table, marked and zeroed, or none |
| Kernel.Memory.AllocPd | kernel/paging.c:11-23 | the first unused directory, marked and zeroed, or none |
| Kernel.Memory.LoadCr3 | kernel/paging.c:77-85 | loads the register and empties the TLB |
| Kernel.Memory.MapPage | kernel/paging.c:107-126 | writes one table entry, and drops the page from the TLB when the directory is the loaded one |
| Kernel.Memory.UnmapPage | kernel/paging.c:128-144 | refuses an absent directory entry and changes nothing then; otherwise clears one table entry, and drops the page from the TLB when the directory is the loaded one |
| Kernel.Memory.FindArea | kernel/fault.c:31-42 | the list walk gives the first covering area |
| Kernel.Memory.FileBytes | kernel/fault.c:85-103 | the page after memset and read: file bytes from the 32-bit file offset up to the end of the file, then zeros |
| Kernel.Memory.TableFor | kernel/fault.c:67-77 | allocates and enters a page table only for an absent entry, with the exact new state |
| Kernel.Memory.BringIn | kernel/fault.c:78-103 | maps and fills the page; a failed read unmaps it and gives the frame back |
| Kernel.Memory.HandlePageFault | kernel/fault.c:44-105 | without an address space or on a present page the handler panics and changes nothing; any other fault on bitmaps, pools, RAM and TLB is the page fault of the machine value, state and outcome |
| Kernel.Memory.CopyKernelMappings | kernel/process.c:18-28 | the loop copies exactly the present supervisor entries |
| Kernel.Memory.CreateTaskMm | kernel/process.c:30-42 | a fresh directory with the kernel entries and no areas, or failure without a change |
| Kernel.Memory.FreeTableFrames | kernel/process.c:89-96 | the loop frees exactly the frames that this table maps |
| Kernel.Memory.ReleaseTables | kernel/process.c:79-104 | the two nested loops free exactly what the address space owns: the release of the machine value |
| Kernel.Memory.MapArea | kernel/mmap.c:37-96 | the offset test, the walk to the position, the test of the two neighbours and the insertion are the do_mmap of the machine value |
| Kernel.Memory.PadRest | kernel/mmap.c:19-35 | padzero with its two directory switches, and the fault it may take, on the real state |
| Kernel.Memory.LoadOne | kernel/elf.c:65-102 | one round of the header loop on the real state |
| Kernel.Memory.LoadAll | kernel/elf.c:65-102 | the header loop on the real state is the loop of the machine value |
| Kernel.Memory.LoadFile | kernel/elf.c:44-105 | reading both headers, with every refusal, then the loop, then the entry point: the load of the machine value |
| MmapSpec.NewAreaCovers | kernel/mmap.c:41-54 | for positive, non-wrapping lengths the area is page-aligned, non-empty, covers the request and less than a page more at either end |
| MmapSpec.Position | kernel/mmap.c:64-70 | the walk stops at the first area that does not start below the new one |
| MmapSpec.InsertComplete | kernel/mmap.c:71-75 | on a sorted list, testing the two neighbours refuses exactly the requests that overlap some area |
| MmapSpec.InsertKeeps | kernel/mmap.c:71-90 | an accepted area leaves the list sorted, aligned and disjoint, with exactly that area added |
| MmapSpec.RunKeepsSorted | kernel/mmap.c:37-96 | every run of do_mmap and vm_brk_flags calls with positive, non-wrapping lengths keeps the list page-aligned, strictly sorted and disjoint |
| MmapSpec.FindVmaComplete | kernel/fault.c:31-42 | find_vma returns an area exactly when it is the one on the list that covers the address |
| MmapSpec.FindAreaComplete | kernel/fault.c:31-42 | the same by page: areas consist of whole pages |
| Mmap.AddressSpace.FindPlace | kernel/mmap.c:64-70 | the loop over vm_next finds the position and its predecessor |
| Mmap.AddressSpace.Link | kernel/mmap.c:76-89 | relinking puts the area at its position and keeps the doubly linked list well formed |
| Mmap.AddressSpace.DoMmap | kernel/mmap.c:37-91 | on structs linked by address: the list stays doubly linked and its areas become the sorted insertion, or the call is refused with nothing changed |
| Mmap.AddressSpace.FindVma | kernel/fault.c:31-42 | the list walk is the search on the areas |
| Mmap.AddressSpace.VmaFileSeen | kernel/process.c:44-54 | true exactly when an earlier area has the same file |
| Mmap.AddressSpace.FreeFiles | kernel/process.c:62-71 | closes and frees every distinct file of the list exactly once |
| Mmap.AddressSpace.FreeVmas | kernel/process.c:72-78 | frees every area struct exactly once, reading next before each free |
| Mmap.AddressSpace.ReleaseHeap | kernel/process.c:56-104 | the sequence of frees contains each inode, file, area and the mm struct exactly once and nothing else |
| Mmap.ReleasedOnce | kernel/process.c:56-104 | file frees, area frees and the mm struct together are exactly the blocks that the address space owns, once each |
| MmHeap.HeapLosesWhatMmOwned | kernel/process.c:62-104 | those frees are all of live, distinct pointers, leave the block list canonical, and take exactly the owned blocks out of the heap, for an address space whose blocks are placed |
| HeapRuns.StepKeepsInv | kernel/process.c:30-105 | every allocation, free, mm creation, do_mmap and release_mm keeps every struct of every address space at a live heap pointer of its own |
| HeapRuns.MapEffect | kernel/mmap.c:37-90 | a refused do_mmap leaves the heap as it was, an accepted one takes one block and enters the area |
| HeapRuns.StructsPlaced | kernel/process.c:30-105 | so in every state of every run the blocks of every address space are placed, and no two address spaces share one |
| HeapRuns.ReleaseTakesExactly | kernel/process.c:56-105 | so in every state of every run release_mm leaves exactly the blocks of everybody else allocated, with no further condition |
| FileBacking.ReadElfIsVfsRead | kernel/elf.c:7-18 | reading headers out of the flat content is vfs_read on the zones of the disk, refused when it delivers too little |
| FileBacking.FaultReadsFile | kernel/fault.c:85-103 | the page after a fault is what vfs_read delivers from the disk at the page's file offset, then zeros |
| FileBacking.FaultByteIsFileByte | kernel/fault.c:86-103 | each byte of the page is the byte that the file's zone pointers lead to, or zero behind its end |
| Loading.MmapKeeps | kernel/mmap.c:37-96 | entering an area keeps the machine invariant, every other address space, and what the older areas cover |
| Loading.MmapBytes | kernel/mmap.c:52-90 | each user page of the new area was in no area before and reads as the area's fill |
| Loading.PadZeroKeeps | kernel/mmap.c:19-35 | padzero keeps the invariant and zeroes exactly the bytes from the address to the end of its page |
| Loading.FilePartHolds | kernel/elf.c:85-89 | after the file mapping every address of the file part reads file[p_offset + (a - p_vaddr)], mapped or not |
| Loading.PadAfterFile | kernel/elf.c:90-94 | after padzero the rest of the last file page reads zero and the file part is as before |
| Loading.BrkCompletes | kernel/elf.c:95-101 | the anonymous area completes the zero part of the segment |
| Loading.SegmentLoads | kernel/elf.c:67-101 | one successful round makes every byte of the segment read as the image byte and spoils no earlier segment |
| Loading.LoadsImage | kernel/elf.c:65-104 | a successful load makes every byte of every loadable segment read as the file byte or zero that its header prescribes, and touches no other address space |
| SystemProofs.DispatchKeeps | kernel/sched.c:181-184 | a context switch with its lazy cr3 reload changes what no task sees |
| SystemProofs.TranslateIsWalk | kernel/paging.c:97-105 | translation through the TLB is translation by the page walk |
| SystemProofs.AccessKeeps | kernel/fault.c:44-105 | a user access that does not panic leaves the page mapped and changes what no task sees |
| SystemProofs.CoveredAccessSucceeds | kernel/fault.c:56-83 | with a frame and a table to be had and the file readable, no access to a user page that an area covers ends in a panic |
| SystemProofs.LoadReadsView | kernel/fault.c:84-103 | a load from a mapped page yields what the address space holds |
| SystemProofs.StoreKeeps | kernel/fault.c:78-83 | a store changes one byte of what one task sees |
| SystemProofs.ExitKeeps | kernel/sched.c:263-268 | exit drops exactly the exiting task's address space; every other task sees what it saw and no task keeps a dead cr3 |
| SystemProofs.ExitFreesExactly | kernel/sched.c:263-268 | exit gives back exactly the frames, tables and directory of the exiting task |
| SystemProofs.RefusedKeeps | kernel/syscall.c:111-116 | a refused execve leaves every address space and the sets of frames, tables and directories in use as they were |
| SystemProofs.ReplacedKeeps | kernel/syscall.c:110-117 | a successful execve gives the task the new address space, and the frames, tables and directories in use are exactly those of before without the old one's and with the new one's |
| SystemProofs.ExecveKeeps | kernel/syscall.c:80-127 | for every outcome of opening the file, allocating, reading the headers, mapping and reading pages: refused and everything unchanged, or replaced, with exactly the old address space freed, the complete image and a zeroed stack page held by the task and every other task undisturbed; nothing is said of a machine that stops |
| LoadOutcome.InsertAllComplete | kernel/mmap.c:64-90 | areas can be entered one after the other exactly when they are clear of each other and of the old ones |
| LoadOutcome.LoadSucceedsWhenClear | kernel/elf.c:65-104 | with heap memory, a frame and a table per segment and readable pages, a load is never stopped, and succeeds exactly when every segment is sane and the areas of the image are clear of each other and of what is mapped |
| LoadOutcome.ExecveOutcome | kernel/syscall.c:80-127 | with everything supplied, an execve replaces the address space exactly when the file has headers and its image can be laid out beside the stack page, and is refused otherwise |
| LoadOutcome.ExecveAreas | kernel/syscall.c:80-127 | after a successful execve the address space has the stack page, the areas of the image, and nothing else |
| LoadOutcome.NothingElseSeen | kernel/fault.c:44-105 | with such areas every byte that the task can see outside the kernel's pages lies in one of them |
| LoadOutcome.SpawnOutcome | kernel/main.c:51-105 | with everything supplied the first task is created and loaded exactly when the file has headers and its image can be laid out, and then has nothing but that image and the stack page |
| SystemRuns.BootedInv | kernel/memory.c:10-25 | at boot exactly the kernel's frames are in use and the invariant holds |
| SystemRuns.CreateKeeps | kernel/process.c:116-152 | create_task keeps the invariant, disturbs no other task, and takes exactly what belongs to the new address space, all of it free before |
| SystemRuns.CreateSucceeds | kernel/process.c:30-50 | create_task gets an address space exactly when a directory is free |
| SystemRuns.SpawnKeeps | kernel/process.c:116-152 | creating a task and loading its image keeps the invariant, disturbs no other task, and the task holds the image and a zeroed stack page |
| SystemRuns.SpawnTakesExactly | kernel/process.c:116-152 | a new task takes exactly the frames, tables and directory of its address space, all of them free before |
| SystemRuns.StepKeepsInv | kernel/process.c:18-114 | every TLB fill and eviction, switch, access, store, kernel store that damages no page table, exit, execve, create_task and spawn keeps the invariant |
| SystemRuns.StepIsolates | kernel/process.c:79-114 | a step of the run changes what a task sees in its own pages only by that task's own store, one of the kernel for it, its exit, its successful execve or its birth, and in the kernel's pages only by a store of the kernel there |
| SystemRuns.RunKeepsInv | kernel/process.c:18-114 | the invariant holds in every state of every run |
| SystemRuns.TlbNeverLies | kernel/paging.c:97-144 | in every state of every run every translation through the TLB is the current two-level walk, and every task's cr3 names a directory in use |
| SystemRuns.NothingLeaks | kernel/process.c:79-103 | in every state of every run, once no task has an address space exactly the kernel's frames, and no table or directory, are in use |
| SystemRuns.RunIsolates | kernel/process.c:79-114 | over any stretch of a run without such a step of its own a task sees the same bytes in its own pages, and in the kernel's too if none is stored there |
| SystemRuns.DemandPagingIsEager | kernel/elf.c:65-102 | demand paging is eager loading: in every run, after a load every byte of every segment reads as the header prescribes, for every later order of faults, TLB fills, switches and other tasks' steps, sys_reads to kernel addresses included |
| SystemRuns.StackStaysZero | kernel/syscall.c:111 | the stack page of a fresh image reads as zeros until the task itself stores there |
| ElfFormat.HeadersRead | include/kernel/elf.h:10-38 | of a file laid out as ELF, with the table anywhere, exactly the entry point and the program headers are read, one by one and field by field; without program headers it is refused |
| ElfFormat.HeadersCutOff | kernel/elf.c:7-42 | a file too short for its header or for its table is refused |
| ElfPrograms.EntersProgram | kernel/elf.c:103 | a successful execve of such a file enters at its e_entry |
| ElfPrograms.ProgramSeesFile | kernel/elf.c:65-102 | after loading such a file, in every later state of every run until the task itself stores, exits or execs, each address of each segment reads as the byte of the file at the segment's offset, or as zero behind p_filesz |
| KernelStores.HarmlessExact | kernel/paging.c:121 | a byte stored into the word of a table entry leaves presence and frame as they are exactly in the listed cases, byte for byte |
| KernelStores.KernelStoreIsUserStore | kernel/tty.c:58 | outside the kernel's pages a kernel store is an access of the task followed by a store of the task, panics included |
| KernelStores.KernelStoreLands | kernel/tty.c:58 | into a kernel page a kernel store always succeeds and lands in the kernel's memory |
| KernelStores.PokeBreaks | kernel/paging.c:107-144 | another value for an entry of a page table in use breaks the ownership of memory, whatever one takes for the owners |
| KernelStores.KernelStoreExact | kernel/tty.c:58 | a kernel store either changes an entry of a page table in use, and then the ownership of memory is broken, or changes exactly one byte: of the task's own page, or of the kernel page that all tasks share |
| KernelStores.KernelStoreKeeps | kernel/tty.c:58 | a kernel store keeps the system invariant exactly when it changes no entry of a page table in use |
| KernelStores.KernelStoreIsolates | kernel/tty.c:58 | outside the page tables a kernel store leaves what the other tasks see exactly when it is to a page that is not the kernel's, or the byte was there already, or there are no others; otherwise each of them reads the byte |
| SystemCalls.ReadIsRun | kernel/syscall.c:56-66 | a sys_read, whatever its buffer, that damages no page table is a run of the system, so that every guarantee about runs holds of it |
| SystemCalls.ReadKeeps | kernel/syscall.c:56-66 | a sys_read keeps the system invariant all the way exactly when none of its stores changes an entry of a page table in use |
| SystemCalls.ReadDelivers | kernel/tty.c:49-61 | for every buffer: each byte that any task sees afterwards is the last one that the call stored there, or as before |
| SystemCalls.ReadIsolates | kernel/syscall.c:56-66 | a sys_read that damages no page table leaves what the other tasks see exactly when all that it leaves in kernel memory was there before, or there are no others |
| SystemCalls.ReadIntoKernel | kernel/syscall.c:59 | one character read to 0xc0000000, where another byte was: every other task then reads it there |
| SystemCalls.ReadIntoTable | kernel/syscall.c:59 | one character with an even code read to the first byte of a present table entry unmaps the page and breaks the invariant |
| SystemCalls.ReadIsOwnRun | kernel/syscall.c:56-66 | sys_read into a buffer in user pages is a run of accesses and stores of the task, and exactly the buffer changes, to exactly the delivered bytes |
| KernelPadding.PadZeroExact | kernel/mmap.c:19-35 | padzero of any address leaves what the other address spaces hold exactly when the tail it zeroes is not in a kernel page, or was zero already, or there are no others |
| KernelPadding.SegmentExact | kernel/elf.c:65-102 | the same for loading any segment, wherever its header wants it |
| KernelRuns.StepKeepsAgreement | kernel/sched.c:171-270 | every step of scheduler, memory system and stacks together, creation of tasks included, keeps them in agreement on who runs and on who has an address space |
| KernelRuns.OneTaskRuns | kernel/sched.c:178-185 | in every state of every run the scheduler's current task is the only running one, its stack is in use, and cr3 names its directory, or the boot directory for the idle task |
| KernelRuns.ResumedAsLeft | kernel/sched.c:171-238 | a task that the scheduler switches out and later runs again finds its registers, its stack and every byte of its memory as it left them, and its directory in cr3 |
| KernelRuns.FirstRunEntersUser | kernel/process.c:165-185 | when the scheduler first runs a task with a prepared stack, it reaches the return to user mode with exactly the prepared state, its own directory in cr3 and its memory as it was |
| KernelRuns.FirstTaskAgrees | kernel/main.c:51-105 | creating, enqueueing and loading the first task establishes the agreement |
| DiskSpec.RegsCarryLba | kernel/disk.c:120-125 | the four register fields recompose to the address modulo 2^28, so to the address exactly when it is below 2^28 |
| DiskSpec.FlatAppend | kernel/disk.c:161-184 | reading two adjoining ranges is reading their union |
| DiskSpec.FlatByte | kernel/disk.c:161-184 | byte i of a range is byte i % 512 of its sector i / 512 |
| DiskSpec.ReadAfterWrite | kernel/disk.c:161-209 | reading a range after writing it gives the written bytes |
| DiskSpec.PatchAppend | kernel/disk.c:186-209 | writing two adjoining ranges is writing their union |
| DiskDriver.Disk.DmaTransfer | kernel/disk.c:98-159 | refuses zero and more than eight sectors; a success moves exactly the addressed sectors, and a failed write touches no other |
| DiskDriver.Disk.Read | kernel/disk.c:161-184 | the chunk loop returns the flat slice, touches nothing behind it in the buffer, and succeeds on a healthy disk |
| DiskDriver.Disk.Write | kernel/disk.c:186-209 | the chunk loop changes exactly the slice to the buffer's bytes, and even a failed write touches no sector outside it |
| FsSpec.SlotsDistinct | kernel/fs.c:99-121 | distinct block indices below 7 + 512 + 512 * 512 reach distinct pointer slots |
| FsSpec.MapBlockBySlot | kernel/fs.c:96-136 | the slot alone decides the zone; a zero pointer is a hole |
| FsLayout.BlockByte | kernel/fs.c:54-58 | block b is the two sectors from 2048 + 2b, byte by byte |
| FsLayout.PointerReads | kernel/fs.c:85-94 | of a block that stores 512 pointers, pointer i is the i-th |
| FsLayout.MapsZone | kernel/fs.c:96-136 | block z of a file laid out over a list of zones, through direct, indirect and double indirect pointers, lies in the z-th zone |
| FsLayout.ContentIsBlocks | kernel/fs.c:138-173 | the content of such a file without holes is its blocks one after the other, cut to its size |
| FsLayout.InodeIsRecord | kernel/fs.c:60-74 | reading inode num finds the num-th record of the inode table |
| FsLayout.DirectoryType | kernel/fs.c:175-178 | an inode is a directory exactly when the type in its mode is 4 |
| FsLayout.LookupIsEntry | kernel/fs.c:200-240 | looking a name up in a directory gives the number in the first entry in use with that name, and 0 when there is none |
| FsLayout.OpenFollows | kernel/fs.c:242-271 | on a disk that holds a tree, opening a path finds the inode to which its names lead from the root, and fails when they lead nowhere |
| FsSpec.RemainingBehind | kernel/fs.c:143 | behind the end of the file what vfs_read takes for the rest wraps |
| FsSpec.ReadsCompose | kernel/fs.c:138-173 | two reads in a row deliver what one read of the summed count delivers, and end at the same position |
| FsSpec.ReadIsContent | kernel/fs.c:138-173 | a read of a readable file is the slice of its content |
| FsSpec.UnreadableReadsNothing | kernel/fs.c:160-167 | a read that meets a block that cannot be read delivers nothing and leaves the position |
| FsSpec.ParseRecord | kernel/fs.c:62-74 | reading the 32-byte record of an inode, wherever it lies in its block, gives back its mode, its size and its nine zones |
| FsSpec.FindIsFirst | kernel/fs.c:217-237 | the entry loop returns the inode number of the first live entry with the name, and 0 exactly when there is none |
| FsSpec.FindSplit | kernel/fs.c:217-237 | searching whole entries and then the rest is searching all |
| FsSpec.ChunksAreFlat | kernel/fs.c:200-240 | the lookup in 1024-byte chunks is the lookup in the whole flat directory |
| FsSpec.LookupOfPart | kernel/fs.c:211-239 | in any directory the lookup is the flat lookup in the part before the first chunk that cannot be read |
| FsSpec.SegmentsOfJoin | kernel/fs.c:25-54 | splitting is the inverse of joining names with slashes |
| FsSpec.SegmentsAreNames | kernel/fs.c:25-54 | every segment is non-empty and has no slash |
| FsSpec.SlashRunsCollapse | kernel/fs.c:34-37 | doubling a slash anywhere changes no segment |
| FsSpec.WalkIsLookup | kernel/fs.c:242-271 | with readable directories the chunked walk finds what folding the simple flat lookup over the names finds |
| FileSystem.Fs.ReadBlock | kernel/fs.c:56-60 | the two sectors of a block |
| FileSystem.Fs.ReadZonePointer | kernel/fs.c:85-94 | the little-endian pointer in a pointer block |
| FileSystem.Fs.MapFileBlock | kernel/fs.c:96-136 | through the driver: the zone of the file block, and on a healthy disk a failure only for holes, blocks out of range and missing pointer blocks |
| FileSystem.Fs.ReadRound | kernel/fs.c:147-170 | one round extends the slice that was read, or meets a block that cannot be read |
| FileSystem.Fs.ReadPart | kernel/fs.c:144-169 | one round copies exactly the wanted bytes of one block |
| FileSystem.Fs.VfsRead | kernel/fs.c:138-173 | the block loop over the chunked driver fills the buffer with the flat slice of min(count, (i_size - f_pos) mod 2^32) bytes at f_pos and advances f_pos by it; a failed read returns 0 and leaves f_pos |
| FileSystem.Fs.ReadInode | kernel/fs.c:62-74 | the inode record behind the bitmaps |
| FileSystem.Fs.NameEqual | kernel/fs.c:180-198 | true exactly when both buffers hold the same name of at most 30 bytes |
| FileSystem.Fs.EntryNumber | kernel/fs.c:219-236 | one entry: its inode number if it is live and has the name, else 0 |
| FileSystem.Fs.SearchChunk | kernel/fs.c:217-237 | the entry loop is the search of the chunk |
| FileSystem.Fs.GetChild | kernel/fs.c:200-240 | the chunk loop is the chunked lookup; a non-directory has no children |
| FileSystem.Fs.SkipSlashes | kernel/fs.c:35-38 | skips a run of slashes without losing a segment |
| FileSystem.Fs.SplitOne | kernel/fs.c:33-52 | one round of the path loop takes exactly the next segment, if there is one |
| FileSystem.Fs.CopyName | kernel/fs.c:43-50 | copies one segment, NUL-terminated |
| FileSystem.Fs.SplitPath | kernel/fs.c:25-54 | fills the component buffers with exactly the non-empty segments of an absolute path; a relative one has none |
| FileSystem.Fs.VfsOpen | kernel/fs.c:242-271 | opens the inode that folding the lookup from the root gives, at position 0; on a healthy disk it fails exactly when that lookup does |
| FileSystem.Fs.VfsClose | kernel/fs.c:273-281 | gives back the inode if there is one, and clears inode and position |
| ConsoleSpec.Put | kernel/console.c:67-104 | after any character, backspace included, the cursor is on the screen |
| ConsoleSpec.RowsExtend | kernel/console.c:67-104 | wrapping a text and one more character is one step from wrapping the text: append, new row, or append and new row |
| ConsoleSpec.NewRowShows | kernel/console.c:47-65 | going to a new row shows the text with an empty row more, scrolled when the screen is full |
| ConsoleSpec.CharShows | kernel/console.c:93-97 | writing a cell shows the text with the character more |
| ConsoleSpec.PrintShowsRows | kernel/console.c:33-104 | from a clear screen any text without backspaces leaves the buffer equal to the last 25 rows of the text wrapped eagerly at 80 columns, padded with blanks, and the cursor behind its end |
| ConsoleSpec.BackspaceErases | kernel/console.c:78-91 | a backspace undoes the character before it, up to the scroll that the character caused |
| ConsoleSpec.BackspaceMoves | kernel/console.c:78-90 | a backspace goes one cell back, over the end of the row above, and blanks it; at the top left it stays |
| ConsoleSpec.ScreenReads | kernel/console.c:33-104 | after printing a text the characters in the buffer are those of its last 25 rows, white on black, with spaces around them |
| ConsoleSpec.UnwrapRows | kernel/console.c:67-104 | wrapping a text into rows loses nothing of it |
| ConsoleSpec.DigitsParse | kernel/console.c:159-174 | the digits parse back to the number and have no leading zero |
| ConsoleSpec.TenDigits | kernel/console.c:161 | a 32-bit number has at most ten digits |
| ConsoleDriver.Console.Reset | kernel/console.c:33-45 | the two loops blank all 2000 cells and home the cursor |
| ConsoleDriver.Console.ScrollUp | kernel/console.c:47-65 | the loops over the video memory move every row up, blank the last and pull the cursor back, only when it left the screen |
| ConsoleDriver.Console.Putc | kernel/console.c:67-104 | buffer and cursor after one character |
| ConsoleDriver.Console.Puts | kernel/console.c:106-115 | prints the whole text; the count is the length modulo 256 |
| ConsoleDriver.Console.PutDec32 | kernel/console.c:159-174 | fills at most ten digits backwards and prints the decimal digits of the value |
| TtySpec.PushFits | kernel/tty.c:14-18 | a pushed character joins the queue exactly when fewer than 255 are pending; with 255 pending the ring then looks empty |
| TtySpec.StepInOrder | kernel/tty.c:14-61 | one key interrupt at any point of the reader, or one step of the reader, keeps what was delivered and what the ring holds in the order typed exactly as long as no more than 255 characters are pending |
| TtySpec.DeliversWhatWasTyped | kernel/tty.c:9-61 | in every interleaving of keys and reader steps with at most 255 pending characters, the reader gets exactly what was pending and typed, zeros dropped and carriage returns as newlines, and the ring holds the rest |
| TtySpec.OneKeyTooMany | kernel/tty.c:9-18 | the 256th pending character makes the reader wait at a ring that looks empty |
| TtySpec.Drains | kernel/tty.c:49-61 | undisturbed, the reader delivers everything pending in three steps a character and then waits |
| TtySpec.EmptyMeansNothing | kernel/tty.c:9-12 | head equals tail exactly when nothing is pending, as long as no more than 255 characters are |
| TtyDriver.Tty.QueueEmpty | kernel/tty.c:9-12 | the emptiness test is the reader's step from waiting |
| TtyDriver.Tty.Putc | kernel/tty.c:36-47 | the interrupt's effect on the ring, wherever the reader stands |
| TtyDriver.Tty.LoadSlot | kernel/tty.c:22 | the load half of a pop is the reader's load step |
| TtyDriver.Tty.AdvanceTail | kernel/tty.c:23 | the tail half of a pop is the reader's delivery step |
| TtyDriver.Tty.Read | kernel/tty.c:49-61 | with keys coming in at any point of the loop, waiting included: buffer and ring are those of the run of the state machine, until count characters are read or the events are over |

## Left out

- Interrupts inside kernel operations: the kernel takes no locks, so every kernel operation is one step of a run; only the terminal ring and the context switch are modelled between single instructions.
- Scheduler states before `init_idle_task`: the branches for a null `task_ptr` (kernel/sched.c:50-53, kernel/sched.c:75-88, kernel/sched.c:111-118) cannot be reached once the idle task is on the ring.
- Scheduler.Scheduler.CreateTask: the scheduler's part of create_task; the struct, the stack and the address space come from the heap and memory models, and the pid is left out.
- Scheduler.Scheduler.ContextSwitch: the scheduler's part; the TSS is left out, cr3 is `SystemProofs.DispatchKeeps`, and `KernelRuns` joins the two.
- Scheduler.Scheduler.ExitTask: the scheduler's part; the address space is `SystemProofs.ExitKeeps`, the open descriptors, which nothing ever fills, are left out, and `KernelRuns` joins the two.
- A second exit with no schedule or block in between that reaps: the first zombie is lost (`SchedSteps.SecondExitLoses`); whether interrupts can ever bring that about is left out.
- Page directories and tables are pools of typed entries: absent, the kernel's table, a user table, a user page. Flag combinations that the kernel never writes, and the conversion between pool slots and addresses (kernel/paging.c:87-95), have no counterpart.
- Kernel.Memory.MapPage: called only when the directory entry is a pool table, as the fault handler sees to; for an absent entry the null test of map_page does not fire and the entry would be written through the kernel's mapping. A `flags` argument without the present bit, which no caller passes, is left out.
- Kernel.Memory.UnmapPage: never called on a page of the kernel's own table.
- sys_execve, exit and task creation with their address spaces are functions on the machine value (`System`) over operations that are also methods of `Kernel.Memory`; their console output, register fields and descriptors are left out.
- Loading.LoadsImage: segments lie between 4 MiB and 0xc0000000, and so for Loading.SegmentLoads and the loading methods of Kernel.Memory; what one outside does to other tasks is `KernelPadding.SegmentExact`.
- KernelStores.KernelStoreExact: of the kernel's structures only the page tables are known to lie in its memory; page directories, heap headers, task structs, stacks and code lie there too, and what a store does to them is left out. So is the accessed, dirty, writable or user flag that a store changes in an entry without changing its frame.
- KernelPadding.SegmentExact: zeros that fall into a page table are bytes of memory here and not entries.
- SystemRuns.StepIsolates: runs go on only as long as no page table in use is damaged; after that no guarantee is left.
- KernelRuns.StepKeepsAgreement: a `sys_read` into kernel pages, where the stacks lie, is not among its steps, and a task created during a run starts with an empty address space, since nothing in the kernel loads an image into another task's.
- ContextSwitch.SwitchRestores: memory holds a whole word at each address, so overlapping unaligned words are independent of each other.
- FileBacking.ReadElfIsVfsRead: an ELF header table that starts behind the end of the file, where vfs_read would read on in the blocks behind it, is refused by the flat model.
- DiskDriver.Disk.Read: ranges of sectors that cross or lie beyond 2^28, where the address registers wrap, and so for DiskDriver.Disk.Write.
- The state of a machine that has stopped in a panic loop.
- The heap effects of failed loads: `elf32_load_exec` passes a stack array to `kfree`, and a failed execve does not always free the opened file.
- Kfree of anything but a live pointer.
- `set_inode` does not test its `kmalloc`; the model opens files with memory to spare.
- FileSystem.Fs.SplitPath: paths with more than 32 names or with names of more than 30 bytes, which overflow the component buffers, and null paths; so for FileSystem.Fs.VfsOpen.
- A terminal queue that has overflowed, beyond the first key too many; more than one reader.
- Port I/O, PCI, PIC, PIT, ATA status polling, GDT, IDT and TSS set-up, boot code, the hardware cursor, the super block read, hexadecimal output, user programs and the keyboard map.
