# Tiny x86 OS, modelled in Dafny

This project models the hardest parts of the kernel and proves properties of the model.
`dafny verify dfyconfig.toml` checks every file.

Where the C code changes things in place, the model does too: classes with fields, arrays
and loops, each method proved against a function over values. The results about whole runs
are lemmas about those functions.

**Virtual memory.** `bitmap.dfy` is the bit map with its global cursor, `mmu.dfy` the
page-table macros, `vm.dfy` the allocator, the page walk and the address-space operations as
functions over a state (frames of 1024 words, allocated bits, cursor). `ownership.dfy` states
the invariant: every frame reached from a live directory, as a directory, table or data frame,
is allocated, outside the shared kernel half it is reached by one path only, and user tables
are present, writable and open to the user. `mapping.dfy`,
`growth.dfy`, `alloc.dfy`, `copy.dfy`, `destroy.dfy` and `fork.dfy` prove what mapping,
allocating, copying and destroying do; `demand.dfy` and `strand.dfy` say how many frames they
take and when they fail; `spaces.dfy` covers whole runs from boot; `heap.dfy` is sbrk,
`heapruns.dfy` the heap of one task over runs of all of these, and `firsttask.dfy` the heap of
the first task; `bytes.dfy` and `transfer.dfy` are the copy of bytes across address spaces.
`memory.dfy` is the code itself over arrays, refining all of this, and `example.dfy` one small
address space at which the failures below happen.

**Scheduling.** `list.dfy` is the intrusive doubly linked list. `sched.dfy` is the scheduler
with its sleep list and semaphores as a transition system, one step for each operation, since
each runs with interrupts off; `runs.dfy` has bounded waiting, exact sleeping times and the
semaphore books; `effects.dfy` says what each step does to the whole state, and what becomes of
the tasks it releases, starts, preempts or keeps running; `task.dfy` is the code over linked
lists, refining the steps.

**Terminal output.** `tty.dfy` is the ring buffer, `flow.dfy` any number of concurrent writers
with the drain loop of the console.

**MD5.** `rfc1321.dfy` is section 3 of RFC 1321 with its four rounds listed operation by
operation; `answer.dfy` works through the digest of "abc" from section A.5 of RFC 1321 by it;
`md5.dfy` is the streaming code, equal to it for every message and splitting.

**FAT16.** `fat.dfy` is a volume with mirrored tables, `chains.dfy` cluster allocation,
`search.dfy` its search loop step by step, `content.dfy` a file as a flat string, `layout.dfy`
where table entries and the bytes of a file lie on the disk, `fatfs.dfy` the driver with its
one-sector buffer.

**Numbers.** `numeral.dfy` says what a numeral denotes, `klib.dfy` is printing and parsing.

`basics.dfy` holds the few definitions that several of these parts share.

## Where the code falls short

Each of these is proved; where the code is right under a condition, the condition is exact.

- bmp_alloc_multi_bit compares a masked bit with 0 or 1, so it is exact only when it looks for
  clear bits (`Bitmaps.ScanIsExactForClear`); the kernel uses it only so.
- Frames freed below the cursor are never handed out again (`Bitmaps.RangesIncrease`).
- memory_alloc_for_page_dir returns 0 also when it fails, so sys_sbrk reports success for
  memory that is not there. Every byte is backed if and only if, before the call, there is a
  free frame at or after the cursor for each new page and for each directory slot among them
  without a table (`Demand.AllocForDirIff`, `Heap.SbrkBackedIff`; `Example.SbrkIsSilent` is a
  call that is not backed).
- A failed memory_copy_uvm strands one frame if and only if the first request that cannot be
  met is for a table, and never more than one (`Strand.FailedCopyStrandsIff`,
  `Fork.FailedCopyStrandsAtMostOne`; `Example.CopyStrands` is such a copy).
- sys_sbrk runs into the ASSERT of memory_create_map if and only if one of the new pages is
  mapped and a frame is left for it (`Heap.SbrkPanicsIff`; `Example.SbrkPanics` is such a
  call). The first task starts there:
  task_first_init puts its heap end at e_first_task, which is a load address
  (src/kernel/kernel.lds:34-40) in memory that the kernel has mapped, so each call of it that
  needs a new page stops the kernel unless no frame is left, as long as that page is one of the
  kernel's (`FirstTask.FirstTaskSbrk`).
- memory_get_paddr does not look at the present bit of the entry. For a page that is not mapped
  it gives an address if and only if there is a table and the frame field of the entry, or the
  page offset, is not 0 (`Transfer.UnmappedPhysAddr`); memory_copy_uvm_data then writes to
  physical frame 0 (`Example.FrameZeroIsWritten`).
- sys_sleep(0), and sys_sleep with more than 2^32 - 10 milliseconds, takes its caller off the
  ready list for good (`SchedRuns.SleepIffTicks`, `SchedRuns.LostForever`).
- Writers to one terminal can block one another on its output semaphore for good exactly when
  there are 512 of them or more, given a console mutex that lets some waiter in whenever nobody
  is inside; the kernel has 130 tasks at most (`TtyFlow.DeadlockIff512`).
- tty_write returns two more than the number of bytes written (`TtyFlow.ReturnsTwoMore`).
- The guard of get_next_cluster and set_next_cluster is off by one sector: an update is
  confined to the tables exactly for clusters with an entry there
  (`FatVolume.ConfinedIffInside`, `FatVolume.OneSectorTooFar`).
- cluster_alloc_free counts in 16 bits: on a table of 65536 entries a search for more clusters
  than are free does not stop at the end. Asked for exactly one more than there are, it returns
  the chain of all there are as a success, and otherwise it never ends
  (`FatSearch.SearchStopsIff`).
- The clamp in fatfs_read adds in 32 bits, and is right if and only if that sum does not wrap
  (`FatContent.ReadCountExact`).
- str2num_dec refuses a sign, so it inverts printing exactly for numbers that are not negative
  (`Klib.PrintThenParse`).

## Model

| member | source | states |
|---|---|---|
| Bitmaps.Bitmap.constructor | src/kernel/tools/bitmap.c:10-16 | After initialisation every bit of the map has the initial value. |
| Bitmaps.OneBit | src/kernel/tools/bitmap.c:18-25 | Setting or clearing bit j of a byte changes bit j and no other. |
| Bitmaps.Bitmap.SetBit | src/kernel/tools/bitmap.c:18-25 | The packed byte array afterwards stands for the old bits with exactly `bitCnt` bits from `index` on replaced, stopping at the end of the map. |
| Bitmaps.MaskedEquals | src/kernel/include/tools/bitmap.h:16-20 | The masked value equals 0 iff the bit is clear, but equals 1 only if the bit is set and lowest in its byte. |
| Bitmaps.Bitmap.Scan | src/kernel/tools/bitmap.c:27-53 | The scan finds the leftmost run at or after the cursor among the bits as it sees them, and -1 when there is none. |
| Bitmaps.FindRunIsLeftmost | src/kernel/tools/bitmap.c:27-53 | If any run starts at or after the cursor, one is found and no run starts before it; -1 is returned only when there is none. |
| Bitmaps.SetRunsAreMissed | src/kernel/tools/bitmap.c:32-43 | A scan for set bits never finds a run of two or more, whatever the map holds. |
| Bitmaps.ScanIsExactForClear | src/kernel/tools/bitmap.c:32-43 | For all maps, cursors and lengths the scan finds the leftmost run exactly when it looks for clear bits. |
| Bitmaps.Bitmap.AllocMultiBit | src/kernel/tools/bitmap.c:27-53 | On success exactly the bits of the run found are flipped and the cursor moves behind it; on failure nothing changes. |
| Bitmaps.StepFlips | src/kernel/tools/bitmap.c:18-53 | An allocation turns exactly the bits of its range, all of them clear, and gets none only if no run of clear bits starts at or after the cursor; a free clears exactly its range. |
| Bitmaps.RangesIncrease | src/kernel/tools/bitmap.c:27-53 | Over any mix of allocations and frees the ranges handed out are increasing and pairwise disjoint; what lies below the cursor is never handed out again. |
| Mmu.MasksAreRemainders | src/kernel/include/cpu/mmu.h:25-36 | The mask and shift forms of the index and field macros are the quotients and remainders the other proofs compute with. |
| Mmu.ValuesAreOr | src/kernel/core/memory.c:80 | The entry values built with the or operator are the sums used by the other proofs. |
| Mmu.PteValueFields | src/kernel/core/memory.c:99 | An entry built from a frame and privilege bits has that frame, is present, and has those low bits. |
| Mmu.PrivilegeCarriesOver | src/kernel/core/memory.c:246-248 | A copied entry keeps the low ten bits of the source entry. |
| Mmu.VaddrRoundTrip | src/kernel/include/cpu/mmu.h:27-34 | page_table_vaddr is the inverse of pde_index and pte_index. |
| Mmu.VaddrIsOr | src/kernel/include/cpu/mmu.h:33-34 | page_table_vaddr written with the or operator is the sum of its two fields. |
| Vm.AllocPageFresh | src/kernel/core/memory.c:26-37 | The frame returned is free, is the lowest free one at or after the cursor, and becomes the only newly allocated one; 0 is returned only if none is free there. |
| Vm.FreePageClears | src/kernel/core/memory.c:39-46 | Freeing a managed frame clears its bit and changes nothing else. |
| Vm.HalvesMeet | src/kernel/include/core/memory.h:12-16 | User addresses are those from 0x80000000 on, which are those from directory entry 512 on; managed frames are those from address 0x100000 on. |
| Ownership.LinkTable | src/kernel/core/memory.c:75-84 | Linking a fresh cleared frame as a table, present, writable and open to the user, keeps the ownership invariant and adds one path, to that frame. |
| Ownership.WriteLeaf | src/kernel/core/memory.c:92-99 | Storing a present entry in an empty slot keeps the ownership invariant if the frame was allocated and not reached. |
| Ownership.FramesOfPath | src/kernel/core/memory.c:65-87 | The directory of a path of a live space is an allocated frame other than the kernel directory, and its table is an allocated frame that is no directory. |
| Mapping.FindPteLinks | src/kernel/core/memory.c:70-87 | For a user address without a table, find_pte with alloc either finds no frame and changes nothing, or keeps the invariant, adds exactly a cleared table from a free frame, and returns its slot. |
| Mapping.MapUserPage | src/kernel/core/memory.c:89-106 | Mapping one user page that is not mapped either fails for lack of a table and changes nothing, or adds exactly that page with the given frame and bits; the ASSERT does not fire. |
| PageAlloc.AllocStepAllocates | src/kernel/core/memory.c:188-203 | One round of the loop maps one more page onto a frame that was free, or fails and maps nothing; the ASSERT does not fire on an unmapped page. |
| PageAlloc.AllocForDirGrows | src/kernel/core/memory.c:183-205 | On unmapped user pages the call never panics, maps no page but those asked for, each to a frame that was free and with the privilege bits asked for, and keeps existing mappings and other spaces. |
| Demand.AllocForDirStatus | src/kernel/core/memory.c:183-205 | For any user range, mapped or not: whether the call maps it all, runs out of frames or stops at the ASSERT is decided by the free frames at or after the cursor and the entries of the directory before the call. |
| Demand.AllocForDirIff | src/kernel/core/memory.c:183-205 | Every page of an unmapped range ends up mapped if and only if there is a free frame for each page and for each directory slot of the range without a table. |
| Copy.CreateUvmCreates | src/kernel/core/memory.c:147-160 | A new directory is a free frame, agrees with the kernel's in the low 512 entries, is empty above, and changes no other directory. |
| Copy.OthersKept | src/kernel/core/memory.c:225-256 | What grows one address space changes no translation and no page of another. |
| Copy.CopyEntryStep | src/kernel/core/memory.c:239-253 | One present entry: the invariant of the copy loops is kept and the page joins the copied ones, or memory has run out. |
| Fork.CopyUvmForks | src/kernel/core/memory.c:225-256 | A successful copy translates a user address exactly when the source does, with the same low ten bits and equal pages, through distinct frames that were free; the source is unchanged and the low half is the kernel's. |
| Fork.DestroyUndoesCopy | src/kernel/core/memory.c:258-283 | Destroying a successful copy restores exactly the allocated set held before the copy. |
| Fork.FailedCopyStrandsAtMostOne | src/kernel/core/memory.c:242-262 | A failed copy keeps the invariant, changes no page in use, and leaves at most one frame allocated that was not. |
| Strand.CopyUvmIff | src/kernel/core/memory.c:225-256 | The copy succeeds if and only if there is a free frame for the directory, for each mapped page of the source, and for each directory slot of the source that holds such a page. |
| Strand.FailedCopyStrandsIff | src/kernel/core/memory.c:242-262 | A failed copy changes the allocated set if and only if the frames run out between the first page of a slot and the table it needs, read off the free frames and the entries of the source. |
| Example.CopyStrands | src/kernel/core/memory.c:242-262 | A state with two free frames at which the copy of a space of one page fails and leaves a frame allocated. |
| Destruction.DestroyFreesOwned | src/kernel/core/memory.c:265-283 | Destroying an address space frees exactly the frames it owns and keeps the invariant for the others. |
| Spaces.BootEstablishesInv | src/kernel/core/memory.c:108-145 | The kernel tables built at boot satisfy the ownership invariant, whatever the linker's addresses. |
| Spaces.StepKeepsInv | src/kernel/core/memory.c:147-283 | Create, map, copy and destroy each keep the invariant, also when memory runs out. |
| Spaces.CreateEffect | src/kernel/core/memory.c:147-160 | With a frame left a space is created, and without one nothing happens. |
| Spaces.MapEffect | src/kernel/core/memory.c:183-205 | Mapping adds no page but those asked for, with the bits asked for, and all of them if and only if there is a frame for each page and each missing table. |
| Spaces.CopyEffect | src/kernel/core/memory.c:225-263 | With frames for its directory, pages and tables a space is copied; otherwise the spaces in use stay the same and no frame in use changes. |
| Spaces.DestroyEffect | src/kernel/core/memory.c:265-283 | Destroying a space frees its frames and no others. |
| Spaces.RunsKeepInv | src/kernel/core/memory.c:147-283 | Over every run, each frame reached from a live directory is allocated and is reached by one path only outside the shared half, and every user table has the P, W and U bits. |
| Heap.SbrkBacks | src/kernel/core/memory.c:313-350 | With nothing mapped above the heap, a call returns the old end and adds the increment, the ASSERT does not fire, and on success exactly the pages between the rounded ends are added; every page added has the P, W and U bits and no other. |
| Heap.SbrkStatus | src/kernel/core/memory.c:313-350 | For any heap in user memory the call returns the old end and advances it, whatever became of the allocation, which the state before the call decides. |
| Heap.SbrkBackedIff | src/kernel/core/memory.c:313-350 | Every byte handed out is backed if and only if there is a free frame for each new page and for each directory slot among them without a table. |
| Heap.SbrkUnbacked | src/kernel/core/memory.c:342-349 | With no frame left, a call that needs a new page returns the old end, advances it, and leaves a byte without backing. |
| Example.SbrkIsSilent | src/kernel/core/memory.c:342-349 | A state at which sys_sbrk(1) returns the old end and the byte is not there. |
| Heap.SbrkCallsBack | src/kernel/core/memory.c:313-350 | Over any sequence of calls in which allocation succeeds, every byte handed out is backed and the heap ends at the sum of the increments. |
| HeapRuns.StepKeepsSpace | src/kernel/core/memory.c:147-283 | Creating, mapping, copying and destroying other spaces, and copying this one, leave every page of a space mapped through the same entry with the same contents, and map no other page in it. |
| HeapRuns.HeapStaysBacked | src/kernel/core/memory.c:313-350 | Over every run that mixes calls of sys_sbrk that find enough frames with creating, mapping, copying and destroying other spaces, the heap ends at the sum of the increments, exactly the pages up to it are added, with the P, W and U bits, every byte handed out is backed, and every page of the space keeps its frame and contents. |
| Heap.SbrkPanicsIff | src/kernel/core/memory.c:98 | A call stops at the ASSERT if and only if one of the new pages is mapped and the free frames exceed what the pages before the first such page take. |
| Example.SbrkPanics | src/kernel/core/memory.c:98 | A state with one free frame at which sys_sbrk(1) stops at the ASSERT. |
| Heap.HeapInsideRange | src/kernel/core/memory.c:313-350 | With the heap end inside pages just allocated, a call stops at the ASSERT exactly when it needs a new page, that page is still one of those, and a frame is left. |
| FirstTask.RunsKeepKernel | src/kernel/core/memory.c:147-283 | No run of creating, mapping, copying and destroying address spaces changes the kernel directory or an entry of its tables. |
| FirstTask.BootMaps | src/kernel/core/memory.c:108-145 | When no row of kernel_map fails, create_kernel_table maps exactly the pages of the rows, page k of a row through the entry for frame pStart / 4096 + k with the bits of the row. |
| FirstTask.EntryFields | src/kernel/core/memory.c:89-106 | The entry for page k of a row leads to frame pStart / 4096 + k and is present, with the other bits of the row. |
| FirstTask.IdentityHolds | src/kernel/core/memory.c:108-145 | Over every run from boot, in every address space, an address in a row that maps its pages to themselves is mapped and translated to itself. |
| FirstTask.FirstTaskSbrk | src/kernel/core/task.c:169-170 | From boot on and after any run, a task whose heap ends in a row of kernel_map, below its last page, stops at the ASSERT with a call of sys_sbrk if and only if the call needs a new page and a frame is left. |
| Transfer.TransferChunk | src/kernel/core/memory.c:296-309 | One chunk extends the part of the destination that equals the source by the chunk and touches no other byte. |
| Transfer.DataOnlyKeeps | src/kernel/core/memory.c:305 | Writing only data frames of a directory keeps the ownership invariant. |
| Transfer.UnmappedPhysAddr | src/kernel/core/memory.c:285-292 | For a user page that is not mapped, memory_get_paddr gives a non-zero address if and only if there is a table and the frame field of the entry or the page offset is not 0. |
| Example.FrameZeroIsWritten | src/kernel/core/memory.c:294-311 | A state and a destination in an unmapped page at which one round of memory_copy_uvm_data overwrites a byte of physical frame 0. |
| MemoryManager.Memory.AllocPage | src/kernel/core/memory.c:26-37 | The bit map scan and the address arithmetic compute the allocation step of the specification. |
| MemoryManager.Memory.FreePage | src/kernel/core/memory.c:39-46 | Clears the bit of the frame, with the index computed in 32 bits. |
| MemoryManager.Memory.KernelMemcpy | src/kernel/tools/klib.c:84-95 | The byte loop leaves the destination range equal to the source range and every other byte unchanged. |
| MemoryManager.Memory.KernelMemset | src/kernel/tools/klib.c:97-106 | The byte loop fills exactly the frame it is given. |
| MemoryManager.Memory.FindPte | src/kernel/core/memory.c:65-87 | Refines the specified page walk, including the table it links. |
| MemoryManager.Memory.CreateMap | src/kernel/core/memory.c:89-106 | The loop over pages refines the specified mapping. |
| MemoryManager.Memory.CreateUvm | src/kernel/core/memory.c:147-160 | Refines the creation of an address space and records it as live. |
| MemoryManager.Memory.AllocForDir | src/kernel/core/memory.c:183-205 | Whenever the ASSERT does not fire, the loop refines the specified allocation of user pages, mapped or not, and returns 0. |
| MemoryManager.Memory.CopyUvm | src/kernel/core/memory.c:225-263 | The nested loops refine the specified copy, with destruction on failure. |
| MemoryManager.Memory.DestroyUvm | src/kernel/core/memory.c:265-283 | The nested loops refine the specified destruction. |
| MemoryManager.Memory.GetPaddr | src/kernel/core/memory.c:285-292 | Returns frame address plus offset of the entry found, or 0 without a table; the present bit of the entry is not looked at. |
| MemoryManager.Memory.CopyRound | src/kernel/core/memory.c:296-306 | One round of the loop writes the rest of one page, or of the request, to whatever frame memory_get_paddr names, mapped or not, and does nothing when it gives 0. |
| MemoryManager.Memory.CopyUvmData | src/kernel/core/memory.c:294-311 | With all destination pages mapped to distinct frames apart from the source, the destination range read through the directory equals the source bytes, for any alignment, and all other bytes and the invariant are unchanged. |
| MemoryManager.Memory.SysSbrk | src/kernel/core/memory.c:313-350 | Whenever the ASSERT does not fire, it refines the specified sbrk on the heap end of the task. |
| Lists.List.constructor | src/kernel/tools/list.c:7-10 | A new list is well formed and empty. |
| Lists.List.InsertFirst | src/kernel/tools/list.c:12-23 | The pointer surgery prepends the node to the sequence and keeps the chain well formed. |
| Lists.List.InsertLast | src/kernel/tools/list.c:25-36 | Appends the node and keeps the chain well formed. |
| Lists.List.RemoveFirst | src/kernel/tools/list.c:38-53 | Removes and returns the first node, or null from an empty list. |
| Lists.List.Remove | src/kernel/tools/list.c:55-71 | Removes exactly that node from anywhere in the chain and keeps it well formed. |
| Basics.WithoutMembers | src/kernel/tools/list.c:55-71 | Removal takes out one element and leaves every other. |
| Sched.WakeScans | src/kernel/core/task.c:251-261 | The scan takes one tick off every sleeper, none twice and none skipped, and those at zero leave the sleep list for the end of the ready list in order. |
| Sched.StepKeepsInv | src/kernel/core/task.c:186-296 | Every timer, yield, sleep, semaphore and start step keeps: lists duplicate-free, no task in two places, waiters on no other list, slices between 1 and 10, and the running task at the head of the ready list, or idle when it is empty. |
| SchedRuns.StepWait | src/kernel/core/task.c:186-276 | No step lengthens the wait of a ready task, and a tick shortens it by one. |
| SchedRuns.BecomesCurrent | src/kernel/core/task.c:186-276 | In any run with enough ticks a ready task becomes current within the ticks the tasks ahead of it have left. |
| SchedRuns.WaitsAtMostTenTicksEach | src/kernel/core/task.c:186-276 | A task at index k of the ready list becomes current within 10 k ticks. |
| SchedRuns.SleepIffTicks | src/kernel/core/task.c:265-296 | sys_sleep puts the caller on the sleep list if and only if 0 < ms <= 2^32 - 10; otherwise the caller is on no list. |
| SchedRuns.SleepsExactly | src/kernel/core/task.c:250-296 | A sleeper stays asleep for exactly n ticks with 10 (n - 1) < ms <= 10 n and joins the ready list on the n-th, whatever else happens. |
| SchedRuns.LostForever | src/kernel/core/task.c:288-296 | A task on no list, as after sys_sleep(0), is never on a list and never current again. |
| SchedRuns.ReleasedInOrder | src/kernel/ipc/sem.c:14-41 | Over any run the earlier waiters followed by the arrivals are the releases followed by those still waiting. |
| SchedRuns.SemaphoreBooks | src/kernel/ipc/sem.c:9-41 | Grants plus count equal initial count plus notifications, the count is never negative and positive only without waiters, and release is in order of arrival. |
| Effects.YieldEffect | src/kernel/core/task.c:209-221 | With another task ready, the caller goes to the end of the ready list and the next task becomes current; alone it goes on; nothing else changes. |
| Effects.YieldShortens | src/kernel/core/task.c:209-221 | A yield shortens the wait of every other ready task by the slice left to the caller. |
| Effects.SleepEffect | src/kernel/core/task.c:265-296 | The caller leaves the ready list for the end of the sleep list, with (ms + 9) modulo 2^32 divided by 10 ticks, or for no list when these are none; nothing else changes. |
| Effects.WaitEffect | src/kernel/ipc/sem.c:14-27 | The count goes down, or the caller leaves the ready list for the end of the wait list and the next task becomes current; nothing else changes. |
| Effects.NotifyEffect | src/kernel/ipc/sem.c:29-41 | The first waiter goes from the wait list to the end of the ready list, and runs at once if only the idle task did, or the count goes up; nothing else changes. |
| Effects.StartEffect | src/kernel/core/task.c:102-106 | The started task goes to the end of the ready list; nothing else changes. |
| Effects.TickEffect | src/kernel/core/task.c:236-263 | The running task loses a tick, and with its last one gets ten and goes to the end of the ready list; every sleeper loses a tick, and those at their last one follow it in order; the head of the ready list runs; no other slice, tick or task changes. |
| Effects.ReleasesAreReady | src/kernel/ipc/sem.c:29-41 | Over every run, each task released from a semaphore is ready right after the notification that released it. |
| Effects.ReleasedBecomesCurrent | src/kernel/ipc/sem.c:29-41 | A released task becomes current within ten ticks for each task that was ready before it, in every run with that many ticks. |
| Effects.StartedBecomesCurrent | src/kernel/core/task.c:102-106 | A started task becomes current within ten ticks for each task that was ready before it, in every run with that many ticks. |
| Effects.KeepsProcessor | src/kernel/core/task.c:236-263 | A task that does not yield, sleep or wait stays current, through any other steps, for as many ticks as its slice has left less one: with a fresh slice, nine. |
| Effects.LosesProcessor | src/kernel/core/task.c:236-263 | The last tick of its slice takes the processor from it if another task is ready, and it goes behind all of them with ten ticks. |
| Scheduler.Boot | src/kernel/core/task.c:130-182 | Building the nodes, lists and tick counters, then the constructor and StartFirst, gives a scheduler that satisfies the invariant, with the first task current and the only ready one. |
| Scheduler.BootInv | src/kernel/core/task.c:158-182 | Empty lists, full time slices and one ready, running task satisfy the invariant. |
| Scheduler.TaskManager.constructor | src/kernel/core/task.c:130-156 | Over lists and tick counters handed in initialised, nothing is on a list, every tick counter is as given, and the idle task is current. |
| Scheduler.TaskManager.StartFirst | src/kernel/core/task.c:158-182 | The first task becomes current and the only ready one. |
| Scheduler.TaskManager.SetReady | src/kernel/core/task.c:186-191 | Appends the run node unless the task is idle. |
| Scheduler.TaskManager.SetBlock | src/kernel/core/task.c:193-196 | Unlinks the run node from the ready list unless the task is idle. |
| Scheduler.TaskManager.Dispatch | src/kernel/core/task.c:223-234 | The head of the ready list, or idle, becomes current. |
| Scheduler.TaskManager.SysYield | src/kernel/core/task.c:209-221 | Refines the yield step on the linked lists. |
| Scheduler.TaskManager.TimeTick | src/kernel/core/task.c:236-263 | Refines the timer step, with the scan that unlinks nodes while it walks the list. |
| Scheduler.TaskManager.VisitSleeper | src/kernel/core/task.c:252-258 | One node of the scan loses a tick and moves to the ready list at zero. |
| Scheduler.TaskManager.SetSleep | src/kernel/core/task.c:265-272 | Records the ticks and appends the run node to the sleep list; nothing for no ticks. |
| Scheduler.TaskManager.SetWakeup | src/kernel/core/task.c:274-276 | Unlinks the run node from the sleep list. |
| Scheduler.TaskManager.SysSleep | src/kernel/core/task.c:288-296 | Refines the sleep step. |
| Scheduler.TaskManager.TaskStart | src/kernel/core/task.c:102-106 | Refines the start step; it does not dispatch. |
| Scheduler.TaskManager.SemWait | src/kernel/ipc/sem.c:14-27 | Refines the wait step: count down, or move to the wait list and dispatch. |
| Scheduler.TaskManager.SemNotify | src/kernel/ipc/sem.c:29-41 | Refines the notify step: release the first waiter and dispatch, or count up. |
| Tty.Queue.constructor | src/kernel/dev/tty.c:33-38 | A new ring is empty. |
| Tty.Queue.Enqueue | src/kernel/dev/tty.c:40-55 | Appends a character, or returns -1 and changes nothing exactly when the ring is full. |
| Tty.Queue.Dequeue | src/kernel/dev/tty.c:57-72 | Takes the oldest character, or returns -1 exactly when the ring is empty. |
| TtyFlow.StepKeepsInv | src/kernel/dev/tty.c:156-169 | Every step of every writer keeps the slot count, the wait list and the per-writer books. |
| TtyFlow.NeverFull | src/kernel/dev/tty.c:156-167 | A writer that holds a granted slot finds room in the ring. |
| TtyFlow.SlotsConserved | src/kernel/dev/console.c:300-304 | In every run of any number of writers count, queued, granted and not yet notified slots add up to 512, and no tty_enqueue of tty_write fails. |
| TtyFlow.OutputFaithful | src/kernel/dev/tty.c:147-169 | What comes out of the queue for a writer, what it has queued and what it has to send is its text with CRLF conversion, in order; once all have returned, everything has come out. |
| TtyFlow.AllowedExcludes | src/kernel/dev/console.c:299-320 | Under a mutex that lets a writer in only when nobody is inside, at most one writer is in the drain loop. |
| TtyFlow.NoDeadlock | src/kernel/dev/tty.c:156-169 | With fewer than 512 writers, and a console mutex that lets some waiter in whenever nobody is inside, some writer can take a step while one is inside tty_write. |
| TtyFlow.DeadlockIff512 | src/kernel/dev/tty.c:156-169 | With such a console mutex, a run from the open terminal can reach a state in which writers are inside tty_write and none can take a step if and only if there are 512 writers or more. |
| TtyFlow.RunsEnd | src/kernel/dev/tty.c:156-169 | Without further calls every run of any number of writers ends, within a bound counted off the text to be sent, the queue and where each writer stands. |
| TtyFlow.AllTextOut | src/kernel/dev/tty.c:147-169 | With fewer than 512 writers and such a console mutex, a run from the open terminal that cannot go on without a call has every writer back from tty_write, the queue empty, and all text come out, converted and in order. |
| TtyFlow.Finishes | src/kernel/dev/tty.c:147-169 | With fewer than 512 writers, from every state that a run can reach, steps the mutex allows lead to one in which every writer is back. |
| TtyFlow.ReturnsTwoMore | src/kernel/dev/tty.c:153-171 | In every run, a call that has returned gave the size it was asked to write plus 2 modulo 2^32, never that size. |
| TtyFlow.ServedInOrder | src/kernel/dev/tty.c:156-169 | Over every run the writers that wait for a slot get one in the order in which they came, and what has come out or is queued stays so, in order. |
| TtyFlow.ExpandLine | src/kernel/dev/tty.c:147-169 | CRLF conversion turns a line end into two characters and converts the parts around it separately. |
| Rfc1321.Selection | src/shell/md5.h:22-36 | F selects y where x is set and z elsewhere, bit by bit, and G is the same selection steered by z. |
| Rfc1321.ParityAndComplement | src/shell/md5.h:38-52 | H is the parity of each bit; I is the exclusive or of x and y where z is set, and the complement of y elsewhere. |
| Rfc1321.RotatesLeft | src/shell/md5.h:55-60 | The word moves up by s bits, and the s bits that leave at the top come in at the bottom. |
| Rfc1321.RotateAround | src/shell/md5.h:55-60 | Rotation loses no bit: the complementary rotation gives the word back. |
| Rfc1321.DecodeEncode | src/shell/md5.c:76-79 | Decoding the four bytes of a word, low byte first, gives the word back. |
| Rfc1321.PaddedIs | src/shell/md5.c:101-118 | A padded message is the message, a byte 0x80, zeros, and the length in bits modulo 2^64 as two words, the low one first. |
| Rfc1321.AbsorbBlock | src/shell/md5.c:69-84 | The 64th pending byte makes a block and leaves nothing pending. |
| Rfc1321.AbsorbLength | src/shell/md5.c:101-118 | After padding, 56 bytes are pending and one block with the length finishes the digest. |
| Md5.Listed | src/shell/md5.c:136-157 | Index map, shift, number and register order of step i are the i-th entry of the four listed rounds. |
| Md5.AfterAll | src/shell/md5.c:135-159 | The single sequence of 64 operations is the four rounds one after the other. |
| Md5.Loop | src/shell/md5.c:130-159 | The loop over rotating registers, with the table K of the code, ends with the registers of the four rounds with the table T of the standard, for every state and block. |
| Md5.Step | src/shell/md5.c:130-165 | md5_step is the block function of section 3.4 of RFC 1321. |
| Md5.MaskBytes | src/shell/md5.c:121-126 | The masks take the four bytes of a word, low byte first. |
| Md5.Context.constructor | src/shell/md5.c:39-46 | A new context stands for the empty message. |
| Md5.Context.Update | src/shell/md5.c:54-86 | The context stands for the old message followed by the new bytes, wherever the split falls. |
| Md5.Context.Finalize | src/shell/md5.c:92-127 | The digest array holds the digest of RFC 1321 of all bytes taken in, also when padding spills into another block. |
| Md5.Md5String | src/shell/md5.c:171-178 | The result is the digest of RFC 1321 of the string. |
| Md5.Md5File | src/shell/md5.c:180-193 | For every message and every splitting the result is the digest of RFC 1321. |
| KnownAnswer.DigestOfAbc | src/shell/md5.c:171-178 | The digest of "abc" is 900150983cd24fb0d6963f7d28e17f72. |
| FatVolume.SetNextUpdates | src/kernel/fs/fatfs/fatfs.c:121-145 | With identical table copies one entry changes in every copy, the copies stay identical, and every other entry and every sector outside the tables is unchanged. |
| FatVolume.NextIsTable | src/kernel/fs/fatfs/fatfs.c:103-119 | Reading returns the entry of the table, so what was set last. |
| FatVolume.OneSectorTooFar | src/kernel/fs/fatfs/fatfs.c:128-131 | A cluster whose entry lies one sector past the table passes the guard, and the sector after the last copy is overwritten with the one after the first. |
| FatVolume.ConfinedIffInside | src/kernel/fs/fatfs/fatfs.c:125-142 | For every disk, the update of a cluster that passes the guard leaves all sectors outside the tables unchanged for every value if and only if the cluster has an entry in the table. |
| FatLayout.EntryOnDisk | src/kernel/fs/fatfs/fatfs.c:103-119 | Entry c of the table is the two bytes at offset 2 c of its first copy, the low byte first. |
| FatLayout.CopiesTile | src/kernel/fs/fatfs/fatfs.c:136-142 | The copies of the table lie one behind the other and fill the space from the first sector of the table to the end of the last copy. |
| FatLayout.MarkersAre | src/kernel/fs/fatfs/fatfs.c:165-191 | A free entry is 0 and belongs to a cluster from 2 to below 0xFFF8; the last cluster of an allocation is marked 0xFFF8. |
| FatChains.AllocTakesLowest | src/kernel/fs/fatfs/fatfs.c:165-191 | On success the result heads a terminated chain of exactly the n lowest free clusters in ascending order, and no other entry changed. |
| FatChains.AllocLeavesRest | src/kernel/fs/fatfs/fatfs.c:165-191 | The free clusters afterwards are the earlier ones without the first n. |
| FatChains.AllocKeepsChains | src/kernel/fs/fatfs/fatfs.c:165-191 | Every existing chain stays a chain and shares no cluster with the new one. |
| FatChains.AllocFailure | src/kernel/fs/fatfs/fatfs.c:170-190 | A refused request leaves all free clusters linked to one another; only the last stays free. |
| FatSearch.FirstPass | src/kernel/fs/fatfs/fatfs.c:170-184 | After k rounds the loop has linked the free clusters below 2 + k in ascending order, as long as they are fewer than asked for. |
| FatSearch.SearchStopsIff | src/kernel/fs/fatfs/fatfs.c:165-191 | The loop stops if and only if the table has fewer than 65536 entries, or there are enough free clusters, or exactly one more is asked for than there are and there is one; it then ends with the specified allocation, in the last case that of all there are, and otherwise the counter is positive after every number of steps. |
| FatContent.ContentAt | src/kernel/fs/fatfs/fatfs.c:332-361 | Bytes of the concatenated chain inside one cluster are the bytes of that cluster. |
| FatLayout.DataAreaInOrder | src/kernel/fs/fatfs/fatfs.c:333-335 | The clusters from 2 on in order are the data area, from its first sector on and without gaps. |
| FatLayout.ContentOnDisk | src/kernel/fs/fatfs/fatfs.c:332-361 | Byte off of the k-th cluster of a chain is byte k b + off of the file, and lies off bytes behind the start of sector dataStart + (cluster - 2) * sectors per cluster. |
| FatLayout.ReadOnDisk | src/kernel/fs/fatfs/fatfs.c:323-373 | What a read gives ends with the request or the file, and each byte is the one at its place on the disk. |
| FatContent.CursorIsQuotient | src/kernel/fs/fatfs/fatfs.c:149-158 | The cursor is right exactly when it is the chain's entry at position divided by cluster size. |
| FatContent.ReadCountExact | src/kernel/fs/fatfs/fatfs.c:326-327 | The count is min(size, rest of the file) if and only if pos + size does not wrap. |
| FatFs.Fat.BufReadSector | src/kernel/fs/fatfs/fatfs.c:223-233 | Afterwards the buffer holds the sector, read or already there. |
| FatFs.Fat.BufWriteSector | src/kernel/fs/fatfs/fatfs.c:235-237 | Exactly one sector of the disk becomes the buffer. |
| FatFs.Fat.GetNextCluster | src/kernel/fs/fatfs/fatfs.c:103-119 | Refines the specified table read and keeps the buffer coherent. |
| FatFs.Fat.SetNextCluster | src/kernel/fs/fatfs/fatfs.c:121-145 | Refines the specified table write to every copy and keeps the buffer coherent. |
| FatFs.Fat.ClusterAllocFree | src/kernel/fs/fatfs/fatfs.c:165-191 | Whenever the search ends, result and table are the specified outcome, the copies stay identical, and nothing outside the tables changes. |
| FatFs.Fat.MoveFilePos | src/kernel/fs/fatfs/fatfs.c:147-163 | Adds the bytes and goes to the next cluster exactly when the end of the cluster is reached. |
| FatFs.Fat.Read | src/kernel/fs/fatfs/fatfs.c:323-373 | Returns exactly the bytes from the position to the end of the request or file, advances by that many, and keeps the cursor in the cluster of the position while it is inside the file. |
| FatFs.Fat.ReadTwice | src/kernel/fs/fatfs/fatfs.c:323-373 | Two calls of the read, one after the other, fill their buffers with what one combined call through another file in the same state gives, and leave the same position and cursor. |
| Numerals.DigitsDenote | src/kernel/tools/klib.c:131-135 | Repeated division yields the numeral of the number: only digits, no leading zero, the right value. |
| Numerals.NumeralUnique | src/kernel/tools/klib.c:131-135 | No other string is a numeral of that number. |
| Klib.WriteDigits | src/kernel/tools/klib.c:131-135 | The do-while loop writes the reversed numeral of the magnitude, for either sign and for INT_MIN. |
| Klib.ReverseRange | src/kernel/tools/klib.c:137-142 | The two-pointer swap reverses the range in place and leaves the rest. |
| Klib.FieldIsDigit | src/kernel/tools/klib.c:157-160 | Masking a field and shifting it down gives one digit of the unsigned number. |
| Klib.WriteOctal | src/kernel/tools/klib.c:152-160 | Two bits at the top and then three at a time are the octal numeral of the number. |
| Klib.WriteHex | src/kernel/tools/klib.c:161-167 | Four bits at a time are the hexadecimal numeral of the number. |
| Klib.Num2Str | src/kernel/tools/klib.c:119-170 | Writes the printed form and a terminating zero, and nothing for any other base. |
| Klib.PrintedDenotes | src/kernel/tools/klib.c:119-170 | The printed form denotes the number in base 10 with a sign, and the number modulo 2^32 in bases 8 and 16. |
| Klib.Str2NumDec | src/kernel/tools/klib.c:172-191 | Succeeds exactly on non-empty strings of decimal digits, with the value as a 32-bit int. |
| Klib.PrintThenParse | src/kernel/tools/klib.c:119-191 | Parsing inverts decimal printing exactly for the numbers that are not negative. |

## Left out

- Mutexes: outside the terminal, code between mutex_lock and mutex_unlock is one atomic step;
  mutex_unlock hands over without removing the waiter from its list, so nothing is claimed
  about contention.
- Hardware: port I/O, assembly, real task switches, interrupt and disk controllers. A task
  switch changes the current task; the disk is an array of sectors of 512 bytes that does not
  fail, with bytes_per_sector 512; the accessed and dirty bits are not set by the processor.
- The translation of kernel addresses: physical addresses are used as such, which
  `FirstTask.IdentityHolds` shows to be right for the rows of kernel_map, and the kernel tables
  are built only as a function (`Spaces.CreateKernelTable`), not as a method.
- Task records and semaphores are kept field by field in arrays; the fields that the scheduler
  does not read (state, name, pid, file table) are not modelled.
- fork, execve, exit and wait: their bookkeeping of tasks, pids and files.
- The virtual-address branch of memory_free_page, whose assertion is inverted.
- tty input, whose flow control looks at the semaphore instead of the ring, and reopening a
  terminal; cursor, escape sequences and the screen.
- FAT: writing, expanding, closing, unlinking, seeking, directory entries and names, and mount.
- The other string and memory functions of the library, and formatted printing.
- FatFs.Fat.ClusterAllocFree: requires that the search ends, with the exact condition of FatSearch.SearchStopsIff.
- FatFs.Fat.Read: requires the condition of FatContent.ReadCountExact, because the read runs past the file otherwise, a position inside the file, and clusters no larger than the buffer; the destination is one array, apart from the driver's buffer.
- MemoryManager.Memory.KernelMemcpy: the destination lies in one frame, apart from the frames read, and both pointers are not null, as in all calls modelled here.
- MemoryManager.Memory.KernelMemset: the range lies in one frame and the pointer is not null, as in all calls modelled here.
- Mapping.MapUserPage: one user page at a time, as all callers after boot map them; the ranges of the kernel tables are in Spaces.BootEstablishesInv and FirstTask.BootMaps.
- MemoryManager.Memory.CopyRound: the bytes read lie apart from the frame written, as for MemoryManager.Memory.KernelMemcpy.
- MemoryManager.Memory.CreateMap: requires that the ASSERT does not fire, because it stops the kernel.
- MemoryManager.Memory.AllocForDir: requires user addresses and that the ASSERT does not fire; mapping a kernel address through one directory would break the sharing of the kernel half.
- MemoryManager.Memory.CopyUvm: copies the current directory, as fork does, because the source pages are read at their virtual addresses.
- MemoryManager.Memory.CopyUvmData: destination pages with a table must be mapped, because an entry that is not present is used all the same (MemoryManager.Memory.CopyRound and Transfer.UnmappedPhysAddr say how).
- MemoryManager.Memory.SysSbrk: requires a heap end in user memory and that the ASSERT does not fire; for the heap end of the first task, in kernel memory, see FirstTask.FirstTaskSbrk.
- Md5.Context.Update: the input is a sequence of bytes, apart from the context; overlap with the context is not modelled.
- Klib.Str2NumDec: null strings are not modelled; overflow wraps to 32 bits.
- Scheduler.TaskManager.constructor: the nodes, lists and tick counters are handed in initialised; Scheduler.Boot builds them.
- TtyFlow.NoDeadlock: the mutex is one that lets some waiter in when nobody is inside; nothing is claimed for the hand-over in src/kernel/ipc/mutex.c:44-51, which makes a waiter ready without unlinking it.
- TtyFlow.DeadlockIff512: the mutex is one that lets some waiter in when nobody is inside, as for TtyFlow.NoDeadlock.
