# Yalnix kernel core, modelled in Dafny

This project models the core of a teaching operating-system kernel for the
Yalnix simulated machine. The kernel has:

- a FIFO list library (`src/linked_list.c`);
- block descriptors checked on every clock tick (`src/blocks.c`);
- process control blocks (`src/PCB.c`);
- boot code that builds the free-frame list and the region-0 and region-1 page
  tables, and moves the kernel break (`src/kernel.c`, plus the earlier
  `sample/src/kernel.c`);
- the system calls Wait, Exit, Fork, Exec, Brk, Delay, LockInit, Acquire,
  Release, CvarInit and CvarSignal (`src/syscalls.c`);
- the clock and memory trap handlers and process abort (`src/traps.c`);
- the program loader (`src/load_program_broke.c`).

The kernel's globals are one `Kernel` object (`kernel_state.dfy`). Its fields
are:

- the free-frame list, as a sequence of frame numbers;
- the two page tables of the idle address space, as arrays of `Pte`;
- the ready, blocked and dead queues, the process list, and the lock and
  condition-variable lists;
- the id counters, the kernel break and the current pid.

PCBs are values in a map from pid to `Pcb`. Each holds its own page-table
arrays and a `Block` object, which `check_block` updates in place. Kernel
lists are sequences of `(id, data)` nodes. The `void *` data of a node is a
`Ref`: NULL, a PCB, or an exit-status box owned by a pid. The methods that
change state in the source are methods with `modifies` clauses. Each is proved
against a pure function of the old state, and the functions carry the lemmas.

The recurring invariant is frame conservation. A free list and a page table
together hold the same multiset of frames (`PageTables.Pool`) before and
after every mapping, unmapping and release loop.

`hardware.h` is not part of this model. `hardware.dfy` assumes these values:

- pages: `PAGESHIFT` 13, so pages are 8 KiB;
- regions: region 0 is `[0, 0x100000)` and region 1 is `[0x100000, 0x200000)`,
  128 pages each;
- the kernel stack: `KERNEL_STACK_BASE` 0xFC000, two pages, base page 126;
- `PMEM_BASE` 0;
- protections: `PROT_READ` 1, `PROT_WRITE` 2, `PROT_EXEC` 4;
- `YALNIX_ACCERR` 2;
- stack layout: 4-byte words, `INITIAL_STACK_FRAME_SIZE` 16,
  `POST_ARGV_NULL_SPACE` 4;
- `MAX_PT_LEN` 128.

Unsigned 32-bit arithmetic is written out where the source depends on it.

## Model

| member | source | states |
|---|---|---|
| LinkedList.Append | src/linked_list.c:6-25 | add_to_list keeps every old node in place and puts the new (id, data) node last |
| LinkedList.IndexOfId | src/linked_list.c:86-95 | the index of the first node with this id, or -1 exactly when no node has it |
| LinkedList.IndexOfData | src/linked_list.c:97-106 | the index of the first node with this data, or -1 exactly when no node has it |
| LinkedList.PopAfterAppend | src/linked_list.c:60-70 | popping after an append returns the old head (or, on an empty list, the appended node) and leaves the rest with the new node at its tail |
| LinkedList.DrainIsFifo | src/linked_list.c:60-70 | draining by repeated pops yields ids in insertion order: appending id adds id last to the drained sequence |
| LinkedList.FindIdAfterAppend | src/linked_list.c:86-95 | since duplicates are not checked, an append never changes what find_by_id already finds, and makes a missing id findable |
| LinkedList.RemoveKeepsOthers | src/linked_list.c:29-58 | remove_from_list shortens the list by one exactly when the data is present, and every other datum stays findable exactly when it was |
| LinkedList.List.Add | src/linked_list.c:6-25 | the list object's nodes become Append of the old nodes |
| LinkedList.List.Remove | src/linked_list.c:29-58 | returns 0 when a node with the data existed and -1 otherwise, and unlinks the first such node |
| LinkedList.List.Pop | src/linked_list.c:60-70 | returns the head and unlinks it, or NULL with the list unchanged when it is empty |
| LinkedList.List.Count | src/linked_list.c:72-83 | count_items returns the number of nodes |
| LinkedList.List.FindById | src/linked_list.c:86-95 | returns a listed node with this id, and NULL exactly when no node has it |
| LinkedList.List.FindByData | src/linked_list.c:97-106 | returns a listed node with this data, and NULL exactly when no node has it |
| Blocks.CheckOutcomes | src/blocks.c:29-102 | check_block per case: an inactive block is UNBLOCKED; a bad active flag or block type is ERROR; a NO_BLOCK is zeroed and UNBLOCKED; a delay of 0 or 1 is zeroed and UNBLOCKED; a longer delay is decremented and BLOCKED; a wait block is UNBLOCKED only when a child has exited, and is otherwise left as it was |
| Blocks.DelayUnblocksOnNthCheck | src/blocks.c:57-68 | a delay of n ticks reports BLOCKED n - 1 times, then UNBLOCKED with the block zeroed |
| Blocks.NegativeDelayStaysBlocked | src/blocks.c:57-68 | a negative delay count, compared as unsigned, stays BLOCKED on every check and only decrements |
| Blocks.Block.CheckBlock | src/blocks.c:29-102 | the in-place check leaves the block and returns the result that Check gives for the old block |
| ProcessControl.NewProcess | src/PCB.c:8-23 | the PCB takes the current available_process_id, which is then incremented, and copies vector, code, pc and sp from the user context |
| ProcessControl.NewProcessTwice | src/PCB.c:20-21 | two successive PCBs get strictly increasing pids, both below the counter |
| Scheduler.SwitchToNext | src/syscalls.c:104-113 | the switch point: with requeue, the current process joins the ready tail; the head of the resulting queue becomes current and leaves it; it fails, keeping the current process, exactly when that queue is empty or its head holds no PCB |
| Scheduler.RoundRobin | src/traps.c:79-82 | a requeueing switch keeps the queue's head first and moves the current process behind the others |
| Boot.RangeAscending | src/kernel.c:74-75 | the boot free list holds lo, lo + 1, ... up to hi - 1, in ascending order |
| Boot.RangeMembers | src/kernel.c:74-75 | a frame is on the boot free list exactly when lo <= frame < hi |
| Boot.DropTwo | src/kernel.c:136-139 | the idle stack pops frames lo and lo + 1, leaving the list that starts at lo + 2 |
| Boot.SetKernelData | src/kernel.c:40-43 | records the start and end of the kernel data segment |
| Boot.BuildFrameList | src/kernel.c:74-75 | the free-list loop leaves frames first_free .. total - 1 in ascending order |
| Boot.FillRegion0 | src/kernel.c:78-96 | region-0 entry i maps frame i; it is valid below the break page and on the kernel stack; it is read-execute below the data page and read-write above it |
| Boot.FillRegion1 | src/kernel.c:99-108 | every region-1 entry is invalid and read-write with frame 0 |
| Boot.InitFrames | src/kernel.c:66-75 | sets the frame counters from the physical memory size and the break, and the free list to every frame above region 0 |
| Boot.MapIdleStack | src/kernel.c:136-145 | the top two region-1 pages take the first two free frames, which leave the list; no other entry changes |
| Boot.BootUnmapped | src/kernel.c:136-145 | after boot, no frame on the free list is mapped by region 0 or region 1 |
| Boot.CreateIdle | src/kernel.c:128-153 | the idle PCB gets pid 0, is listed in process_list and becomes current, running DoIdle on the top region-1 page |
| Boot.KernelStart | src/kernel.c:49-163 | the whole boot: frame counters, both page tables, virtual memory on and the idle process current; with at least two frames above region 0, the idle stack mapping and a free list disjoint from both tables; on a smaller machine, a crash at the idle-stack pops |
| Boot.FlipKernelPages | src/kernel.c:204-221 | with virtual memory on, every page from the bottom page through the page holding the new break becomes valid, text pages and the break's own page included; every page above it and below the kernel stack becomes invalid; protections, frames and all other entries stay |
| Boot.SetKernelBrk | src/kernel.c:185-232 | ERROR exactly when the address is above the kernel stack base or below the data start, changing nothing; before virtual memory, the break only grows; after it, the break is the address and region 0 is flipped to match |
| SampleBoot.KernelStart | sample/src/kernel.c:46-124 | the earlier boot: the free list is every frame above region 0, region 0 follows the same rules, the region-1 table is left as it was, and the idle process is pid 0 and current |
| SampleBoot.SetKernelBrk | sample/src/kernel.c:146-187 | the same bounds check, pre-virtual-memory rule and region-0 flip as the final kernel |
| PageTables.PoolAfterMap | src/syscalls.c:762-775 | mapping an invalid entry to the head of the free list keeps the pool of free and mapped frames |
| PageTables.PoolAfterUnmap | src/syscalls.c:777-782 | unmapping a valid entry and appending its frame to the free list keeps the pool |
| PageTables.ReleaseFrames | src/syscalls.c:292-309 | every valid entry becomes invalid, and its frame joins the free list in table order; the pool is kept |
| PageTables.AllocEvery | src/syscalls.c:437-449 | each kernel-stack entry takes the next free frame in order; valid bits and protections stay; failure exactly when too few frames are free, which leaves the free list empty |
| PageTables.AllocValid | src/syscalls.c:451-469 | each valid region-1 entry takes the next free frame, in page order; failure exactly when fewer frames are free than valid entries |
| PageTables.MapOne | src/syscalls.c:762-775 | one mapping step: an invalid entry takes the head frame read-write, a valid entry is untouched, and the pool is kept |
| PageTables.MapRange | src/syscalls.c:762-775 | every invalid page in the range becomes valid read-write and valid ones are untouched; it fails exactly when fewer frames are free than pages are missing; the pool is kept |
| PageTables.UnmapOne | src/syscalls.c:777-782 | one unmapping step: the entry becomes invalid and the pool is kept |
| PageTables.UnmapRange | src/syscalls.c:777-782 | every page in the range becomes invalid, pages outside it stay, and the pool is kept |
| PageTables.FillRange | src/load_program_broke.c:206-212 | each page of the range becomes valid read-write on the next free frame, in order; other pages stay |
| PageTables.CopyTable | src/syscalls.c:427-434 | the memcpy of a page table gives an equal table |
| Lifecycle.CollectExited | src/syscalls.c:64-92 | Wait's collection pops the head of exited_children; it returns that pid and drops one dead_procs record when the record is found, and ERROR otherwise |
| Lifecycle.RemoveFoundRecord | src/syscalls.c:71-88 | in a well-formed dead list, unlinking the found record by its data removes exactly that record |
| Lifecycle.DropRecordIds | src/syscalls.c:243-260 | dropping a child's record keeps dead_procs well formed and removes exactly that pid |
| Lifecycle.DiscardedIds | src/syscalls.c:243-260 | after Exit's cleanup, no exited child keeps a record, and every other pid keeps its record |
| Lifecycle.WaitSeesExitStatus | src/syscalls.c:64-92 | the Exit-to-Wait round trip: the parent collects the child's pid and the status the child exited with, and the child's record is gone |
| Lifecycle.CollectInExitOrder | src/syscalls.c:64-69 | children are collected in the order they exited |
| Lifecycle.WaitPathCases | src/syscalls.c:43-62 | Wait returns ERROR exactly when the caller has no children and no exited children; it collects at once exactly when an exited child is queued; otherwise it blocks |
| Lifecycle.Reap | src/syscalls.c:64-92 | the collection step on the current PCB: the rc and status come from CollectExited, and only exited_children and dead_procs change |
| Lifecycle.Wait | src/syscalls.c:33-113 | the three Wait paths on the kernel: ERROR with nothing changed, the caller's block included; an immediate collection that leaves the block and the queues alone; or a wait block set up and the caller switched out, staying current when the ready head holds no PCB |
| Lifecycle.WaitResume | src/syscalls.c:115-147 | the resumed waiter collects an exited child as Reap does |
| Lifecycle.ExitFamilyFacts | src/syscalls.c:226-277 | Exit's bookkeeping keeps the same pids and changes only family fields, and the parent's children list loses the exiting pid |
| Lifecycle.OrphanedKeepsLists | src/syscalls.c:229-235 | orphaning keeps the pids and cannot change whether the parent's list is missing |
| Lifecycle.Orphan | src/syscalls.c:229-235 | every live child of the exiting process loses its parent |
| Lifecycle.DiscardExited | src/syscalls.c:243-260 | the records of the exited children are unlinked from dead_procs |
| Lifecycle.ReportToParent | src/syscalls.c:263-277 | the parent's lists are updated as Reported says; it fails, changing nothing, exactly when the parent's children list is NULL |
| Lifecycle.ExitFamily | src/syscalls.c:226-284 | orphans the children, drops their records, files the status box in dead_procs and reports to the parent |
| Lifecycle.FirstRunnable | src/syscalls.c:342-348 | the first ready entry that is a live PCB with a saved kernel context, or -1 when none is |
| Lifecycle.RunnableSameFlags | src/syscalls.c:342-348 | maps with the same pids and kc_set flags pick the same next process |
| Lifecycle.TeardownKeepsFlags | src/syscalls.c:342-348 | Exit's bookkeeping does not change which ready process is picked |
| Lifecycle.RotatedPermutes | src/syscalls.c:342-348 | the ready search loses only the process it picked |
| Lifecycle.PickNext | src/syscalls.c:342-348 | Exit's ready-queue search: it crashes on an empty queue, and otherwise picks FirstRunnable and rotates the skipped entries to the tail |
| Lifecycle.ReleaseBoth | src/syscalls.c:292-309 | the kernel-stack frames and then the region-1 frames join the free list, and both tables end empty |
| Lifecycle.Teardown | src/syscalls.c:226-336 | the family bookkeeping, then the frames and the PCB go |
| Lifecycle.Exit | src/syscalls.c:169-358 | init with nothing ready halts with nothing changed; any other caller crashes exactly when its parent's children list is NULL or nothing is ready; otherwise the caller's frames return to the free list, its PCB is gone and the next runnable process is current |
| Lifecycle.Delay | src/syscalls.c:787-809 | a negative count is ERROR and zero returns SUCCESS at once, changing nothing; otherwise the caller's block becomes an active delay of that many ticks, the caller joins blocked_procs and the next ready process runs; when the ready head holds no PCB, the caller stays current and the queue is unchanged |
| Forking.ApplyElsewhere | src/syscalls.c:491-523 | a frame that no copy writes keeps its bytes |
| Forking.ApplyLands | src/syscalls.c:491-523 | when no two copies share a destination and no destination is a source, every destination frame ends with its source's bytes |
| Forking.KsPlan | src/syscalls.c:491-504 | child kernel-stack page i is copied from the frame under the parent's kernel-stack page i |
| Forking.R1Plan | src/syscalls.c:507-523 | one copy for each valid child page |
| Forking.R1PlanPairs | src/syscalls.c:507-523 | every region-1 copy goes from a valid parent page to the child's page of the same number |
| Forking.StageCopies | src/syscalls.c:476-529 | the borrowed staging page is put back, and memory is the kernel-stack copies followed by the region-1 copies |
| Forking.CopyKernelStack | src/syscalls.c:491-504 | memory after the kernel-stack loop is Apply of KsPlan |
| Forking.CopyRegion1 | src/syscalls.c:507-523 | memory after the region-1 loop is Apply of R1Plan |
| Forking.ForkShell | src/syscalls.c:395-434 | the child PCB gets the next pid and copies of the parent's context, page tables and heap base, with empty family fields |
| Forking.ForkFrames | src/syscalls.c:437-469 | the child's tables take the next KS_NPG plus valid-page-count free frames in order; failure exactly when fewer are free |
| Forking.Adopt | src/syscalls.c:535-547 | the child records its parent, is listed in all_procs and becomes current; the parent is queued on ready |
| Forking.Fork | src/syscalls.c:373-576 | ERROR exactly when too few frames are free; otherwise the child runs and the parent is ready; when the frames taken are fresh, each child kernel-stack frame holds the bytes of the kernel-stack page it mirrors and each valid child region-1 frame the bytes of the parent's page of the same number |
| Forking.ForkChild | src/syscalls.c:373-529 | the child PCB, its frames and its copies: failure exactly when too few frames are free, and, with fresh frames, every child frame holds its parent page's bytes |
| Forking.CopyAndLand | src/syscalls.c:476-529 | the copy loops as Apply of the copy plan and, with fresh frames, every child frame ends with the bytes of the page it copies |
| Forking.ForkCopiesLand | src/syscalls.c:491-523 | when the child's frames are distinct free frames that the parent does not read from, every child kernel-stack frame and every valid child region-1 frame ends with the original bytes of its parent page |
| Forking.R1PlanAt | src/syscalls.c:507-523 | the copy for valid child page i is the one at i's rank among the valid pages |
| Forking.R1PlanDst | src/syscalls.c:451-469 | when each valid child page holds the free frame at its rank, the j-th region-1 copy writes the j-th of those frames |
| ExecCall.FirstNull | src/syscalls.c:627-631 | the index of the terminating NULL; every argument before it is present |
| ExecCall.UserArgs | src/syscalls.c:641-655 | the strings before the terminating NULL, in order |
| ExecCall.CountUserArgs | src/syscalls.c:627-631 | Exec's count includes the terminating NULL |
| ExecCall.CopyUserArgs | src/syscalls.c:641-655 | the copy loop yields exactly the user's arguments |
| ExecCall.SwapKernelStack | src/syscalls.c:705-710 | each kernel-stack page puts its frame at the free-list tail and takes the head |
| ExecCall.SwapKeepsFrames | src/syscalls.c:705-710 | the swap loses no frame |
| ExecCall.SwapTakesHead | src/syscalls.c:705-710 | with two free frames, the stack takes the first two and its old frames go to the tail |
| ExecCall.ExecTeardown | src/syscalls.c:678-710 | registers cleared, region-1 frames released (every entry invalid with its protection kept), the kernel stack swapped and kc_set cleared |
| ExecCall.Emptied | src/syscalls.c:691-700 | a table whose frames were given back has the same length and lists no frame |
| ExecCall.ExecLoad | src/syscalls.c:719-732 | on the torn-down caller: a crash exactly when LoadProgram crashes, SUCCESS exactly when it loads; ERROR hands back the cleared registers with region 1 untouched and the free list less a KILLed load's frames; only the caller's PCB changes, as LoadPcb gives it |
| ExecCall.Exec | src/syscalls.c:591-733 | the caller's arguments are copied, its address space is torn down and LoadProgram runs; SUCCESS exactly when the load succeeds; a crash exactly when the load crashes; ERROR with cleared registers otherwise, with every region-1 page invalid and the free list the torn-down one less the frames a KILLed load took; on every path only the caller's PCB changes, as ExecPcb gives it |
| BrkCall.AsWrittenRejectsRegion1 | src/syscalls.c:751-752 | as written, every region-1 address is refused |
| BrkCall.AsWrittenAcceptedOverruns | src/syscalls.c:743-762 | as written, an accepted address lies in region 0, and its top page falls outside the 128-entry table |
| BrkCall.AsWrittenRefusesInBoundsBreak | src/syscalls.c:751-752 | the concrete input: a break inside the gap between heap and stack is refused |
| BrkCall.HeapCoversBreak | src/syscalls.c:762-783 | with the corrected check, the heap pages cover exactly the addresses below the new break and stay below the stack |
| BrkCall.ResizeHeap | src/syscalls.c:762-782 | on every outcome, already-valid heap pages are untouched and newly valid ones are read-write; on success the heap pages up to the top are valid and those above it up to the stack invalid, all else unchanged; on failure the free list is empty and nothing above the top changed; the pool is kept; failure exactly when too few frames are free |
| BrkCall.Brk | src/syscalls.c:741-785 | Brk with region-1 bounds: ERROR with nothing changed outside the bounds; otherwise the region-1 table is resized as ResizeHeap states, SUCCESS recording the new break, ERROR on a frame shortage keeping the pages mapped so far |
| Sync.NewLockOk | src/syscalls.c:958-975 | a new lock is consistent and free |
| Sync.AcquireOutcome | src/syscalls.c:977-1002 | Acquire keeps the lock consistent: a free lock or its owner takes it at once; anyone else is appended to the waiters |
| Sync.ReleaseOutcome | src/syscalls.c:1004-1033 | Release keeps the lock consistent; it stays claimed, by the head waiter, exactly when one waited |
| Sync.AcquireReleaseRoundTrip | src/syscalls.c:977-1033 | Acquire then Release on a free, uncontended lock gives back the same lock |
| Sync.HandoverIsFifo | src/syscalls.c:1015-1030 | after n Releases the nth waiter owns the lock and the first n have left the queue |
| Sync.FreshIdFound | src/syscalls.c:963-972 | an id taken from next_resource_id is new, so find_by_id finds the new record |
| Sync.UpdateFound | src/syscalls.c:977-992 | the in-place update changes only the found record |
| Sync.LockInit | src/syscalls.c:958-975 | SUCCESS, a fresh id from the shared counter, and a free lock appended |
| Sync.Acquire | src/syscalls.c:977-1002 | ERROR for an unknown id; otherwise the lock becomes AfterAcquire, and a caller that must wait is blocked and switched out |
| Sync.Release | src/syscalls.c:1004-1033 | SUCCESS exactly when the caller owns the lock; the head waiter then takes it and becomes ready |
| Sync.CvarInit | src/syscalls.c:879-894 | SUCCESS, a fresh id from the shared counter, and a condition variable with no waiters |
| Sync.Signalled | src/syscalls.c:903-904 | a signal pops exactly the head waiter |
| Sync.CvarSignal | src/syscalls.c:896-915 | ERROR exactly for an unknown id; otherwise the head waiter, if any, moves to the ready queue |
| Sync.SignalIsFifo | src/syscalls.c:896-915 | signals wake waiters in queue order; a signal with no waiters changes nothing |
| Traps.AbortCurrent | src/traps.c:13-21 | the current PCB is filed in dead_procs and unlinked from all_procs; the head of ready becomes current when there is one |
| Traps.AbortedIsGone | src/traps.c:17-18 | an aborted process listed once is no longer found in all_procs, and the others still are |
| Traps.TickAll | src/traps.c:64-77 | the walk over the blocked queue keeps the set of pids |
| Traps.TickCounts | src/traps.c:64-77 | each PCB's delay counter drops once per node pointing at it |
| Traps.TickWakes | src/traps.c:64-77 | only processes on the queue are woken; with distinct pids, exactly those whose counter reaches zero or below are woken |
| Traps.LiveRun | src/traps.c:68-70 | the walk follows every node before the first whose PCB is gone, stops at that one, and covers the whole queue exactly when every node names a live PCB |
| Traps.TickBlocked | src/traps.c:63-77 | the clock's walk on the kernel: it crashes exactly when some blocked node names a freed PCB; the PCBs become TickAll's of the nodes before that one, and their woken nodes are appended to ready |
| Traps.TickOne | src/traps.c:68-76 | one node of the walk keeps the walk's invariant |
| Traps.Clock | src/traps.c:55-86 | the delay walk, then a round-robin switch when a process is ready; a crash, with no switch, exactly when a blocked node names a freed PCB |
| Traps.AsWrittenLoopOverruns | src/traps.c:124-139 | as written, the growth loop starts at an absolute page number of at least 128, past the region-1 table |
| Traps.AsWrittenFaultBelowStackTop | src/traps.c:124-139 | the concrete input: a fault at 0x1FC000 with the break at 0x10000 passes the check and indexes entry 254 |
| Traps.SignedClosenessRefusesBelowBreak | src/traps.c:131 | a fault on the first region-1 page with the break at 0x10000 passes an unsigned region-relative test but is refused by the signed one |
| Traps.MemoryTrap | src/traps.c:111-163 | with region-relative pages, every page from the fault's page up to the stack top is mapped and the pool is kept; a protection error, a fault outside region 1 or within two pages of the break, or too few free frames halts |
| Loader.ArgSize | src/load_program_broke.c:101-106 | the strings take at least one byte each |
| Loader.CountArgs | src/load_program_broke.c:101-106 | argcount is the number of arguments and size is the sum of their lengths plus one each |
| Loader.ArgBytes | src/load_program_broke.c:329-339 | the string area is exactly size bytes long |
| Loader.StringAt | src/load_program_broke.c:329-339 | string i sits at its offset in the area and is followed by its NUL |
| Loader.ArgvAt | src/load_program_broke.c:329-336 | argv[i] is cp plus the bytes of the strings before it |
| Loader.ArgvPointsAtStrings | src/load_program_broke.c:329-339 | reading the stack image back, argv[i] points at string i |
| Loader.BuildArgBlock | src/load_program_broke.c:329-339 | the stack block is argc, then the argv pointers, then NULL, then NULL, with the strings at cp |
| Loader.AlignDown8 | src/load_program_broke.c:121-124 | `x & ~7` is the largest multiple of 8 not above x |
| Loader.LayoutFacts | src/load_program_broke.c:119-140 | cpp is 8-aligned and below cp, and sp lies INITIAL_STACK_FRAME_SIZE below cpp |
| Loader.ArgBlockFits | src/load_program_broke.c:119-130 | the argument block, the strings and the frame fit below the region's limit without overlap |
| Loader.StackPages | src/load_program_broke.c:140 | the stack pages run from the page of sp to the top of region 1 |
| Loader.GapLeavesAPage | src/load_program_broke.c:147-151 | when the gap check passes, at least one page is free between the data and the stack |
| Loader.Slot | src/load_program_broke.c:206-242 | a page gets a pop exactly when it lies in the text, the data or the stack |
| Loader.SlotBelowNeed | src/load_program_broke.c:206-242 | every pop used is among the frames the loops take |
| Loader.LoadedSegments | src/load_program_broke.c:206-296 | on a separated layout, text pages end read-execute, data and stack pages read-write, and other pages stay invalid |
| Loader.LoadedFramesDistinct | src/load_program_broke.c:206-242 | with distinct free frames, two loaded pages never share a frame |
| Loader.FillSegment | src/load_program_broke.c:206-212 | one fill loop maps its pages to the next frames in order |
| Loader.FillTable | src/load_program_broke.c:201-242 | the three fill loops take Need frames and leave each page as Slot says |
| Loader.ProtectText | src/load_program_broke.c:294-296 | text pages become read-execute and nothing else changes |
| Loader.LoadImage | src/load_program_broke.c:145-350 | after the checks: a crash exactly when the loops would pop an empty list or leave the table; KILL when the file cannot be read; otherwise the new table, break, heap base, pc, sp and stack block |
| Loader.LoadProgram | src/load_program_broke.c:27-351 | ERROR for an unopenable, non-Yalnix or low-entry file, or a layout without a gap, taking no frame; otherwise as LoadImage |

## Left out

- Hardware registers, TLB flushes, enabling virtual memory and the interrupt vector are left out, except as a `ptbr1` field and a `vmEnabled` flag. `TracePrintf` logging is left out. A host `exit()` halt is an outcome value.
- `perform_context_switch`, `switch_to_next_available_proc` and kernel-stack cloning are not part of this model. `Scheduler.SwitchToNext` gives the switch a queue-level body: the current pid changes and nothing more. Saved `KernelContext`s are a `kcSet` flag per PCB.
- Terminal I/O (TtyWrite, TtyRead and the TTY traps) is left out. It is device I/O, and TtyRead reads an uninitialised buffer.
- The pipe calls, Reclaim, and the KERNEL, ILLEGAL, MATH and DISK trap handlers are empty stubs. `src/PageTable.c` is also an empty stub.
- `Yalnix_GetPid` only returns the current pid, which is the kernel's `curr` field.
- CvarBroadcast and CvarWait are left out. CvarBroadcast never pops inside its loop, so it does not terminate when a waiter exists. CvarWait falls off its end without returning.
- `src/syscalls/gen_syscalls.c` is a superseded stub that does not compile.
- `sample/src/PCB.c` writes through an uninitialised pointer. `sample/src/linked_list.c` leaves `next` and `prev` unset. The expectations of the sample list test are restated as lemmas about `src/linked_list.c`.
- Lists are sequences. The `prev` and `next` links and node allocation are not modelled.
- malloc failures are not modelled.
- The bytes of a page copy are a frame-to-bytes map (`Forking.Apply`). The loader's file reads and its bss `bzero` are not modelled. Whether the file reads succeed is an input (`readsAll`).
- The loader's scratch table holds uninitialised stack memory in the source. Its contents are an input (`stale`).
- A loader run that pops an empty free list, or writes outside the 128-entry table, is undefined behaviour in C. It is the outcome `LoadCrashed`.
- Lifecycle.Exit: the source searches the ready queue for a runnable process without end. The model makes one round and reports `ExitSpins` when nothing is runnable.
- Forking.Fork: after a failure, the frames already taken stay out of the free list and the pid stays spent, as in the source.
- Forking.Fork: the bytes of the copies are promised only when the frames taken are distinct and none is a frame the parent's copies read (`Forking.FreshForCopy`). The kernel's invariant does not keep free frames apart from mapped ones, so the model does not derive this.
- ExecCall.Exec: a failed load returns ERROR after the old address space is gone, as in the source. A crashing load is reported by `crashed`; the PCB fields it set are stated, and the free list and region 1 after it are not. A successful Exec copies `proc->uc` back, and the registers it clears are in the trap's context, not the PCB's.
- Traps.Clock: woken processes are not removed from `blocked_procs`, as in the source. Exit frees a PCB that is still on `blocked_procs`, and the next tick reads it (src/traps.c:69-72); the model reports that read as `crashed` and does not say what the freed memory holds.
- Lifecycle.Runnable: a ready node can name a freed PCB (the clock appends a delayed process again on every tick, and the copies outlive its Exit). The source reads `kc_set` through it (src/syscalls.c:345); the model counts such a node as not runnable, which is its own choice.
- Scheduler.SwitchToNext: a ready node naming a freed PCB becomes the current pid without being read.
- Lifecycle.Delay: the count is stored in the block (`block->data.delay_count`, src/syscalls.c:795), while the clock counts down `delay_clock_ticks` (src/traps.c:70-72), which no line of the source writes. The model starts that counter at 0, so a delayed process is woken on the first tick whatever its count, and on every later tick while it stays on `blocked_procs`.
- src/pcb.h declares `delay_clock_ticks` as `int *` and has no `kc_set`, `parent`, `brk_addr` or `block`; the PCB header the kernel code uses is not part of this model. The model reads `delay_clock_ticks` as an int counter.
- Sync.Release: with no waiters, the source hands the lock to an uninitialised `waiter` pointer. The model reads it as NULL.
- Sync.CvarInit: the source never initialises `cvar->waiters`. The model starts it empty.
- Sync.LockInit: `lock->waiters` is malloc'd and never initialised (src/syscalls.c:968). The model starts it empty.
- The global lists `locks`, `cvars`, `ready_procs`, `blocked_procs`, `procs` and `dead_procs` are bare `List *` pointers (src/kernel.h:34-47), and no code in the repository allocates them. `sample/src/kernel.c` mallocs its `processes` list (line 114) and never initialises it. The model starts every kernel list empty.
- ProcessControl.NewProcess: `new_process` leaves several fields uninitialised: the heap base, the registers, the page tables, the family lists, the block, `delay_clock_ticks`, `kc_set`, `brk_addr` and `parent`. The model gives them fixed values (0, false, 0 and None for the last four) and fresh arrays, and its contract states the `kc_set` and `parent` values as the model's.
- Traps.MemoryTrap: the corrected handler also refuses faults outside region 1.
- Traps.MemoryTrap: the corrected handler compares the region-relative fault page with the break page as signed numbers. The source subtracts unsigned (src/traps.c:131). On region-relative pages, a fault below the break page would wrap round, pass, and grow the stack through the heap; the model halts on it (`Traps.SignedClosenessRefusesBelowBreak`).
- BrkCall.Brk: the frames given back are stated as a multiset through `Pool`, not as their order on the free list.
- Traps.MemoryTrap: the frames taken are stated as a multiset through `Pool`, not as their order on the free list.

## Findings

| source | as written | input that shows it | evidently intended | confidence | as-written member | corrected member |
|---|---|---|---|---|---|---|
| src/syscalls.c:751-752 | Brk compares the absolute address with `page << PAGESHIFT`, where the page is relative to region 1, so the stack bound is below 0x100000 | heap base page 5, sp 0x1F0000, addr 0x120000: the break lies between heap and stack but is refused | compare against region-1 addresses (add VMEM_1_BASE) | high; not executed | BrkCall.AsWrittenRefusesInBoundsBreak | BrkCall.Brk |
| src/traps.c:124-139 | the growth loop indexes `region1_pt` with absolute page numbers from the fault's page up to 256 | addr 0x1FC000 with the break at 0x10000: the check passes and the first index is 254 in a 128-entry table | region-relative pages below VMEM_1_PAGE_COUNT | high; not executed | Traps.AsWrittenFaultBelowStackTop | Traps.MemoryTrap |
