# AuraOS in Dafny

A Dafny model of the parts of the AuraOS kernel that carry its state: virtual memory, the kernel heap, the
FAT32 driver, the per-CPU scheduler, the in-memory file system, the serial ring buffers, and the UDP/IPv4/Ethernet
codec. Each part has the same three layers.

- **Specification functions** on values say what each operation does, branch by branch, with the constants of the
  source (`Paging`, `UserPages`, `FreeLists`, `FatChains`, `RunQueue`, `InodeTree`, `SerialRing`, `Packets`, ...).
- **Theorems** about those functions say what the operation is for, and hold over every input, every reachable state
  or every run (`SpaceRuns`, `Protection`, `Boot`, `HeapRuns`, `FatRuns`, `FatSpace`, `FatNames`, `SchedulerRuns`,
  `TaskStates`, `InodeRuns`, `RelativePaths`, `SerialRing.RunGood`). They speak of bits, bytes, tasks and names, and not
  of the function they are about.
- **Classes** work the way the source does, with fields, arrays, loops and sectors changed in place
  (`AddressSpaceObject`, `PhysicalMemory`, `HeapObject`, `FatObject`, `SchedulerObject`, `VfsObject`,
  `SerialObject`). Each method is proved to compute exactly its specification function, so the theorems are about the
  loops too.

How the main arguments go:

- *Page tables.* A ghost map from paths (at most four indices) to frames says which frame of an address space is the
  table or page at that path. One frame per path gives the frame rule: writing one entry changes exactly the walks
  through it. Everything above (isolation, the frame ledger, mmap, brk) rests on that. Isolation asks nothing of the
  area lists but that they stay out of the kernel's slots; that the lists tell the truth is a theorem of its own.
- *Heap.* A free list without touching blocks is determined by its set of bytes, so restoring the bytes restores the
  list.
- *FAT32.* A volume is well formed when every directory and every file in use owns a chain and no two chains meet. A
  volume then means a set of directories and file contents; an operation that touches only free clusters changes no
  meaning, and the others change one slot. What a path reads follows from the meaning alone. Clusters in use but in no
  chain are counted: only calls that fail half-way make them.
- *Scheduler.* The distance from the current task to a waiting one, around the queue, drops at each switch and grows
  only by pushes. What each section does to each task, said without its own code, gives the histories: who sleeps until
  when, who may be reaped, who stays on which CPU.
- *File system tree.* A depth for each inode makes the tree well founded; subtrees are ancestor chains through a node. A
  path cannot lead deeper than it has segments, so one that leads as deep as it can has spelt the names.

Addresses and sizes are unbounded integers; where the source truncates or wraps, the model does so explicitly
(28-bit table entries, 16-bit packet lengths, the 32-bit file size and checksum sum). Where the documentation and the
code of AuraOS differ, the model follows the code: `allocate_cluster` looks at clusters 3 up to but not including
`total_clusters`, although cluster numbers go two further; the creators of /proc and /dev entries do not look for an
entry of the same name; and `Ipv4Packet::parse` slices out of range when the total length is shorter than the header.

## Model

| member | source | states |
|---|---|---|
| `Paging.WalkReadsTree` | src/memory/paging.rs:301-342 | a four-level walk depends only on the tables reachable from its root |
| `Paging.PathIsPage` | src/memory/paging.rs:68-97 | two addresses have the same four indices exactly when they lie on the same page (below 2^48) |
| `Paging.PathDigits` | src/memory/paging.rs:68-97 | the four indices are the base-512 digits of the page number |
| `PageTables.WalkOffPath` | src/memory/user_space.rs:209-284 | writing one table entry leaves alone every walk that does not pass through it |
| `PageTables.WalkOnPath` | src/memory/user_space.rs:209-284 | along a private path the walk goes from table to table of the space |
| `PageTables.TreeReads` | src/memory/user_space.rs:124-161 | walks of a space depend only on its own tables and the kernel tables |
| `PageTables.Hang` | src/memory/user_space.rs:209-284 | entering a new table or page keeps the table tree in shape |
| `PageTables.HangWalks` | src/memory/user_space.rs:209-284 | a new empty table is seen by no walk; a new page is seen at its own addresses only |
| `PageTables.Unhang` | src/memory/user_space.rs:422-466 | clearing the entry of a page keeps the table tree in shape |
| `PageTables.UnhangWalks` | src/memory/user_space.rs:422-466 | clearing the entry of a page removes exactly that page from every walk |
| `UserPages.EnsureTablesOk` | src/memory/user_space.rs:215-273 | the walk down succeeds exactly when the pool has a frame for each absent table, and no translation changes |
| `UserPages.MapPageOk` | src/memory/user_space.rs:209-284 | success changes the walk at exactly one page, to the given frame and rights; failure changes no walk; it succeeds exactly when the pool supplies the missing tables |
| `UserPages.UnmapAndFreeOk` | src/memory/user_space.rs:422-466 | unmapping removes exactly one page from every walk and returns its frame, whichever tables were allocated on the way |
| `AddressSpaces.UnmapRangeOk` | src/memory/user_space.rs:577-584 | the first loop of munmap removes exactly the pages of the range and returns exactly their frames |
| `AddressSpaces.TakePageOk` | src/memory/user_space.rs:685-701 | a new page is zeroed, mapped where asked and nowhere else; otherwise the pool was empty and nothing changed, or it had some frames but not enough and a frame slipped: given back to the pool but still recorded |
| `AddressSpaces.BothFreeAndOwned` | src/memory/user_space.rs:695-701 | in the out-of-frames branch the frame ends up both free and recorded as owned, with everything else in order |
| `AddressSpaces.SetPopulatedMatched` | src/memory/user_space.rs:703-712 | recording a faulted page in its area keeps records and page tables in step, rights included |
| `AddressSpaces.FaultOk` | src/memory/user_space.rs:665-717 | for every fault: resolved exactly when its area allows it and the pool can pay, the page then zeroed, with the rights of the area, recorded, and nothing else mapped differently; refused without change; or, with some frames but not enough, a frame left both free and in use |
| `Protection.FaultRights` | src/memory/user_space.rs:665-717 | a fault is decided by the first area around the address: outside every area, in a guard area, under PROT_NONE, or a write without PROT_WRITE, it changes nothing; otherwise it is resolved exactly when the pool pays for the page and its absent tables, and the page is then zeroed, open to user mode, and writable exactly when the area has PROT_WRITE |
| `Vmas.WriteBit` | src/memory/vmm.rs:142-144 | an area is writable exactly when its protection is one of the four combinations with PROT_WRITE |
| `VmCalls.MunmapOk` | src/memory/user_space.rs:568-661 | munmap fails exactly for a zero length or an unaligned address, and then changes nothing; otherwise it removes the range from tables and areas, returns its frames and touches nothing outside |
| `VmCalls.UnmapMatched` | src/memory/user_space.rs:568-661 | munmap keeps the recorded pages and the mapped pages in step |
| `VmCalls.SlippedStays` | src/memory/user_space.rs:577-584 | no later unmapping takes back a frame that slipped |
| `VmCalls.PopulateOk` | src/memory/user_space.rs:532-560 | for every pool: every page of the range backed by its own zeroed frame, or stopped with the pool dry and nothing changed from that page on; or, with some frames but not enough for a page, a frame slipped |
| `PoolNeeds.MissingIs` | src/memory/user_space.rs:215-273 | the walk down allocates exactly the absent tables on the path |
| `PoolNeeds.PopulateCount` | src/memory/user_space.rs:532-560 | MAP_POPULATE fills its range exactly when the pool holds a frame for every page and for every distinct absent table |
| `PoolNeeds.PopulateSafeIff` | src/memory/user_space.rs:532-560 | the populate loop keeps the ledger exactly when the size of the pool never lies strictly between what the pages before some page need and what that page needs as well |
| `Mmap.PlaceOk` | src/memory/user_space.rs:495-528 | without MAP_FIXED the lowest page-aligned free place at or above the hint, if that lies in the window, else the bump pointer; out of memory only when there is none; with MAP_FIXED exactly the address asked, or the error for a bad address or an overlap |
| `Mmap.FreeMeans` | src/memory/user_space.rs:495-528 | a place is free exactly when no address of it lies in an area |
| `Mmap.MmapOk` | src/memory/user_space.rs:471-564 | mmap adds exactly one area at the chosen place, under MAP_POPULATE backed at once, and moves the bump pointer to its end unless MAP_FIXED; it fails exactly for zero length, no place, or fewer free frames than the pages and the distinct absent tables need, and then no address of the range is newly mapped; areas stay disjoint and records in step with the tables |
| `Protection.PopulateRights` | src/memory/user_space.rs:532-560 | every page of a populated mapping is zeroed, open to user mode, and writable exactly when the request has PROT_WRITE |
| `Protection.StoreRights` | src/memory/user_space.rs:209-284 | with records in step, user code can store into a page exactly when an area with PROT_WRITE records it, and then the recorded frame takes the data |
| `Mmap.MmapShort` | src/memory/user_space.rs:532-560 | otherwise mmap fails and leaves a frame both free and in use, even after its clean-up |
| `Brk.GrowOk` | src/memory/user_space.rs:737-774 | growing extends or creates the one heap area and is refused exactly when another area is in the way |
| `Brk.ShrinkOk` | src/memory/user_space.rs:775-791 | shrinking leaves the shorter heap or none and every other area |
| `Brk.CutTail` | src/memory/user_space.rs:777-783 | the munmap inside a shrinking brk unmaps the tail and returns its frames |
| `Brk.BrkOk` | src/memory/user_space.rs:723-792 | brk keeps the heap one area up to the page-rounded break, the areas disjoint, the records in step with the tables, and leaves the other areas alone; a refused call changes nothing |
| `Brk.BrkSafe` | src/memory/user_space.rs:723-792 | whatever munmap has made of the heap, brk keeps tables, ledger and areas in order |
| `Spaces.MunmapKeepsHeapIff` | src/memory/user_space.rs:568-661 | munmap keeps the heap one whole area exactly when there is none or its range avoids it |
| `Spaces.SplitHeapOverlaps` | src/memory/user_space.rs:723-792 | in a new space: grow the heap to four pages, unmap the second, shrink to three, and two areas overlap |
| `Spaces.StepOk` | src/memory/user_space.rs:471-792 | every mmap, munmap, brk and fault in the domain keeps the space safe and stays within its own frames and the pool, and keeps its records truthful unless it is a munmap inside the heap |
| `Spaces.StepIff` | src/memory/user_space.rs:471-717 | a call outside the kernel slots keeps its space safe exactly when every page it asks for finds the pool empty or sufficient |
| `Spaces.LocalStep` | src/memory/user_space.rs:209-284 | a step local to one space is invisible to all others and loses no frame |
| `Spaces.StoreOk` | src/memory/user_space.rs:209-284 | a store through a space changes only its own page: no table, no kernel frame, no translation; at an address outside the user range it changes nothing, if the kernel withholds the user right there |
| `Spaces.KernelShut` | src/memory/user_space.rs:124-161 | if no entry the kernel shares carries the user right, user code reaches nothing outside the user range in any space |
| `Spaces.NewSpaceOk` | src/memory/user_space.rs:124-188 | a new space reaches exactly what the kernel reaches and owns no page; it is made exactly when the pool has enough frames; a failure loses one frame exactly when the pool had some but not enough |
| `Spaces.FreeAllOk` | src/memory/user_space.rs:834-846 | Drop adds exactly the recorded frames to the pool |
| `SpaceRuns.StepKeeps` | src/memory/user_space.rs:471-792 | every event keeps the ledger over all spaces and every bystander unaffected, and loses exactly the counted frames |
| `SpaceRuns.StepKeepsIff` | src/memory/user_space.rs:471-717 | the side condition on the pool is exact: a call in a sound system leaves it sound if and only if it is met |
| `SpaceRuns.CreateKeeps` | src/memory/user_space.rs:164-188 | creating a space, or failing to, keeps the ledger and every bystander, and loses a frame exactly when the pool had some but not enough |
| `SpaceRuns.DropKeeps` | src/memory/user_space.rs:834-846 | Drop returns every page-table and page frame of the space |
| `SpaceRuns.RunKeeps` | src/memory/user_space.rs:124-846 | over every run each frame is free or owned by exactly one space, and exactly one is lost by each creation that found some frames but not enough; a space that does not act observes nothing and kernel translations never change, whatever munmap does to heaps |
| `SpaceRuns.RunRecords` | src/memory/user_space.rs:124-846 | over every run without a munmap inside a heap, the areas of every space are disjoint, its heap is one area up to the break, and a user page is mapped exactly when an area records it, with the same frame, for user mode, and writable exactly when the area has PROT_WRITE |
| `Boot.BuildTables` | boot/uefi/src/main.rs:216-253 | whatever was in memory, the loops of the loader fill exactly the four tables of the specification and touch nothing else |
| `Boot.BootWalks` | boot/uefi/src/main.rs:216-253 | the first 512 MiB and the fourth GiB are mapped to themselves, writable, not for users, and nothing else is mapped |
| `Boot.BootUser` | boot/uefi/src/main.rs:229-239 | user space is exactly 1 GiB to 3 GiB and 4 GiB to 512 GiB |
| `Boot.BootOk` | boot/uefi/src/main.rs:216-253 | the tables of the loader with any pool, any other memory contents and no space meet the invariants of the run theorems |
| `Boot.BootStores` | boot/uefi/src/main.rs:226-252 | the entries of the loader carry no user right, so stores at every address are covered |
| `Boot.BootRuns` | src/memory/user_space.rs:124-846 | isolation, the ledger and truthful records for every run from boot, with user stores at every address |
| `Boot.FirstLeak` | src/memory/user_space.rs:164-188 | with a single free frame, creating a space fails and the frame is gone |
| `Boot.FirstFault` | src/memory/user_space.rs:665-717 | create, grow, touch: five frames or more give a zeroed writable page, two leave the fault refused, and with three or four a frame is both free and in use |
| `Vmas.CutAllOk` | src/memory/user_space.rs:586-658 | subtracting a range leaves well-formed, disjoint areas; every address and populated page outside keeps protection, flags, guard bit, name and frame |
| `Vmas.CutAllSubtracts` | src/memory/user_space.rs:586-658 | even on overlapping areas, every address and populated page outside the range keeps exactly what it had |
| `Vmas.FirstFitOk` | src/memory/user_space.rs:495-528 | the search returns the lowest page-aligned free range at or above its start and below the limit, and nothing only when there is none |
| `Vmas.StepIsSafe` | src/memory/user_space.rs:509-515 | no address up to the rounded end of a conflicting area can be the answer |
| `AddressSpaceObject.AddressSpace.EnsureTable` | src/memory/user_space.rs:218-235 | one level of the walk equals its specification |
| `AddressSpaceObject.AddressSpace.MapUserPage` | src/memory/user_space.rs:209-284 | the three-level loop and the leaf write equal `UserPages.MapPage` |
| `AddressSpaceObject.AddressSpace.UnmapUserPage` | src/memory/user_space.rs:422-466 | the walk down and the cleared entry equal `UserPages.UnmapPage` |
| `AddressSpaceObject.AddressSpace.Forget` | src/memory/user_space.rs:459-462 | drops the first occurrence of a frame from the list |
| `AddressSpaceObject.AddressSpace.UnmapPages` | src/memory/user_space.rs:577-584 | the page loop of munmap |
| `AddressSpaceObject.AddressSpace.CutAt` | src/memory/user_space.rs:589-657 | one area is kept, removed, trimmed or split where it stands |
| `AddressSpaceObject.AddressSpace.CutAreas` | src/memory/user_space.rs:586-658 | the in-place loop over the area list equals `Vmas.CutAll` |
| `AddressSpaceObject.AddressSpace.Munmap` | src/memory/user_space.rs:568-661 | equals `VmCalls.Munmap` |
| `AddressSpaceObject.AddressSpace.AreaOf` | src/memory/user_space.rs:666-669 | finds the area of an address |
| `AddressSpaceObject.AddressSpace.HandleDemandFault` | src/memory/user_space.rs:665-717 | equals `AddressSpaces.Fault`, about which `Protection.FaultRights` |
| `AddressSpaceObject.AddressSpace.BackPage` | src/memory/user_space.rs:685-701 | the steps shared by demand faults and MAP_POPULATE equal `AddressSpaces.TakePage` |
| `AddressSpaceObject.AddressSpace.NextCandidate` | src/memory/user_space.rs:509-515 | steps past the first area in the way |
| `AddressSpaceObject.AddressSpace.FindFree` | src/memory/user_space.rs:495-524 | the search loop terminates and equals `Vmas.FirstFit` |
| `AddressSpaceObject.AddressSpace.PopulatePages` | src/memory/user_space.rs:532-560 | the MAP_POPULATE loop equals `VmCalls.Populate` |
| `AddressSpaceObject.AddressSpace.ChoosePlace` | src/memory/user_space.rs:483-528 | the place of the new area and the bump pointer |
| `AddressSpaceObject.AddressSpace.Mmap` | src/memory/user_space.rs:471-564 | equals `Mmap.Mmap` |
| `AddressSpaceObject.AddressSpace.HeapArea` | src/memory/user_space.rs:742-743 | finds the heap area |
| `AddressSpaceObject.AddressSpace.GrowHeap` | src/memory/user_space.rs:737-774 | extends or creates the heap area unless another is in the way |
| `AddressSpaceObject.AddressSpace.Brk` | src/memory/user_space.rs:723-792 | equals `Brk.Brk` |
| `AddressSpaceObject.AddressSpace.Create` | src/memory/user_space.rs:124-188 | equals `Spaces.NewSpace`, with the failure that keeps the PML4 frame |
| `AddressSpaceObject.AddressSpace.Teardown` | src/memory/user_space.rs:834-846 | the loop of Drop equals `Spaces.FreeAll` |
| `PhysicalMemory.Pmm.AllocFrame` | src/memory/pmm.rs:106-118 | hands out the lowest free frame, and fails only when there is none |
| `PhysicalMemory.Pmm.Release` | src/memory/pmm.rs:121-135 | returns a frame; one outside the window or already free is refused |
| `PhysicalMemory.Pmm.SetBit` | src/memory/pmm.rs:77-103 | setting or clearing one bit changes the pool by exactly that frame |
| `PhysicalMemory.Pmm.LowestClear` | src/memory/pmm.rs:106-118 | the position of the lowest clear bit of a word |
| `PhysicalMemory.Pmm.ReleaseRegion` | src/memory/pmm.rs:190-198 | releases exactly the frames that start in the clipped region |
| `PhysicalMemory.Pmm.Init` | src/memory/pmm.rs:149-198 | after boot the pool is exactly the frames of the usable regions among the first 64 |
| `PhysicalMemory.Pmm.FreeMemory` | src/memory/pmm.rs:216-222 | the free bytes reported are those of the free frames |
| `FreeLists.CanonicalUnique` | src/memory/allocator.rs:78-125 | a canonical free list is determined by the set of its bytes |
| `FreeLists.InsertOrdered` | src/memory/allocator.rs:90-100 | sorted insertion keeps the list ordered |
| `FreeLists.CoalesceOk` | src/memory/allocator.rs:107-125 | coalescing gives the canonical form of the same bytes |
| `FreeLists.AddRegionOk` | src/memory/allocator.rs:78-104 | adding a region adds exactly its bytes and keeps the list canonical |
| `FreeLists.AllocOk` | src/memory/allocator.rs:128-194 | null exactly when no block serves the request; the block handed out is aligned and was free, at the lowest aligned address of the lowest block that serves; exactly its bytes leave the list, which stays canonical and loses no sliver |
| `FreeLists.AllocSucceeds` | src/memory/allocator.rs:145-194 | an aligned free block of exactly the size asked, or at least a node larger, is enough for an allocation to succeed |
| `FreeLists.AllocThenDealloc` | src/memory/allocator.rs:169-202 | freeing what was just allocated restores the identical list |
| `FreeLists.DeallocOk` | src/memory/allocator.rs:197-202 | freeing adds exactly the bytes of the block |
| `HeapRuns.SizeAlignOk` | src/memory/allocator.rs:205-212 | the alignment is the larger of the request and eight; the size is a multiple of it, not below the request or a node, and less than one alignment above the request unless it is a node |
| `HeapRuns.InitOk` | src/memory/allocator.rs:70-74 | init gives one free block |
| `HeapRuns.AllocateOk` | src/memory/allocator.rs:169-194 | an allocation keeps the whole heap in order |
| `HeapRuns.ReleaseOk` | src/memory/allocator.rs:197-202 | a release keeps the whole heap in order |
| `HeapRuns.RunOk` | src/memory/allocator.rs:169-223 | over every history the list is canonical, live blocks are aligned, inside the heap, disjoint from each other and from free ones, and free plus live bytes is the heap size |
| `HeapRuns.AllReleased` | src/memory/allocator.rs:78-202 | once nothing is live, in whatever order it was released, the heap is the single initial block again |
| `HeapRuns.FreeListDetermined` | src/memory/allocator.rs:78-125 | two histories that leave the same bytes live leave the same free list |
| `HeapObject.SpliceIn` | src/memory/allocator.rs:97-100 | linking a node in after the k-th inserts it there |
| `HeapObject.SpliceOut` | src/memory/allocator.rs:131-136 | unlinking the node after the k-th removes it |
| `HeapObject.SpliceMerge` | src/memory/allocator.rs:117-121 | absorbing the next node replaces two neighbours by their union |
| `HeapObject.LinkedListAllocator.InsertNode` | src/memory/allocator.rs:84-100 | the insertion loop over linked headers equals `FreeLists.Insert` |
| `HeapObject.LinkedListAllocator.CoalesceNodes` | src/memory/allocator.rs:107-125 | the merging loop equals `FreeLists.Coalesce` |
| `HeapObject.LinkedListAllocator.AddFreeRegion` | src/memory/allocator.rs:78-104 | equals `FreeLists.AddRegion` |
| `HeapObject.LinkedListAllocator.FindRegion` | src/memory/allocator.rs:128-142 | unlinks the first block that fits |
| `HeapObject.LinkedListAllocator.Alloc` | src/memory/allocator.rs:169-194 | equals `FreeLists.Alloc`, about which `FreeLists.AllocOk` |
| `HeapObject.LinkedListAllocator.Dealloc` | src/memory/allocator.rs:197-202 | equals `FreeLists.Dealloc` |
| `HeapObject.LinkedListAllocator.FreeMemory` | src/memory/allocator.rs:215-223 | the sum over the list |
| `RunQueue.ReapOk` | src/task/mod.rs:686-723 | reaping removes exactly the Dead non-current tasks, keeps the others in order, and the current task stays the same task |
| `RunQueue.ApplyOk` | src/task/mod.rs:726-960 | every locked section keeps a valid current index and "a Running task is the current one" |
| `RunQueue.WaitingForcesSwitch` | src/task/mod.rs:752-780 | while a task waits, a yield always switches and so does the preemption of an expired quantum |
| `RunQueue.BypassStep` | src/task/mod.rs:273-294 | a waiting task comes one place nearer at each switch; only a push sets it back, by at most one |
| `RunQueue.BoundedBypass` | src/task/mod.rs:273-294 | a task that waits in a queue of length n is selected within n - 1 switches plus the tasks pushed meanwhile |
| `SchedulerRuns.StepConserves` | src/task/mod.rs:592-723 | tasks in queues plus tasks in flight change only by issuing and reaping |
| `SchedulerRuns.RunConserves` | src/task/mod.rs:592-723 | over every interleaving no task is lost, duplicated or invented |
| `SchedulerRuns.UniqueTids` | src/task/mod.rs:201-203 | while at most the numbers 1 to 1000 were issued no two tasks share a number |
| `SchedulerRuns.IssueUniqueIff` | src/task/mod.rs:499-508 | issuing keeps numbers unique exactly when the next number is not already in use |
| `SchedulerRuns.TidClash` | src/task/mod.rs:201-203 | with a second CPU the thousandth spawn after boot takes the number of its idle task |
| `SchedulerRuns.BootOk` | src/task/mod.rs:377-418 | the boot state is in order |
| `SchedulerRuns.RunIsTrace` | src/task/mod.rs:592-642 | every run of all CPUs is, for each queue, a trace of its own locked sections |
| `SchedulerRuns.SystemBypass` | src/task/mod.rs:273-294 | bounded bypass whatever the other CPUs do |
| `TaskStates.YieldIs` | src/task/mod.rs:752-780 | a yield does nothing while no other task is Ready; otherwise the first Ready task after the current one becomes Running and current, the old one Ready if it was Running and else what it was, and every other task stays as it was |
| `TaskStates.PreemptIs` | src/task/mod.rs:917-960 | a preemption does nothing before the quantum has run out; then the current task gets a full quantum, and if another is Ready the same exchange happens, the new task with a full quantum too |
| `TaskStates.QuantumRunsOut` | src/task/mod.rs:868-960 | a task keeps the CPU against preemption for exactly the ticks it has left |
| `TaskStates.StaysPut` | src/task/mod.rs:726-960 | no locked section wakes, runs, moves or loses a sleeper, or revives a Dead task, but those that address it |
| `TaskStates.SleepsUntil` | src/task/mod.rs:798-857 | over every trace: a task that sleeps until a tick sleeps through all sections that do not address it, and the first wake-up at or after that tick makes it Ready |
| `TaskStates.KillIs` | src/task/mod.rs:645-670 | a kill makes the first task of that name Dead and changes nothing else |
| `TaskStates.KilledForGood` | src/task/mod.rs:645-723 | over every trace: a killed task stays Dead, is never given the CPU again, and the first reaping that finds it off the CPU removes it |
| `TaskStates.OnlyKillKills` | src/task/mod.rs:726-960 | no section but a kill of that name makes a task Dead |
| `TaskStates.IssueIs` | src/task/mod.rs:499-520 | a new task is Ready with the next number and a full quantum, and goes to the end of the queue it was meant for |
| `TaskStates.ReapedOnlyIfKilled` | src/task/mod.rs:645-723 | over every run of all CPUs: a task is reaped only if a kill named it or it was Dead to begin with |
| `TaskStates.BootReaps` | src/task/mod.rs:377-723 | from boot on no task is reaped that nobody killed |
| `TaskStates.StealIs` | src/task/mod.rs:592-642 | a steal takes the first Ready kernel task that is neither current nor the idle task, from a queue of more than two, and gives it a full quantum; the queue keeps its order and its current task; otherwise nothing changes |
| `TaskStates.UserTasksStay` | src/task/mod.rs:592-642 | over every run a user task stays on the CPU it was issued to |
| `TaskStates.BootFair` | src/task/mod.rs:868-960 | over every run from boot: every quantum is ten ticks, no task holds more, and tasks arrive at a queue with all of it |
| `SchedulerObject.CpuScheduler.PickNext` | src/task/mod.rs:273-294 | the modular scan equals `RunQueue.PickNext` |
| `SchedulerObject.CpuScheduler.SwitchTo` | src/task/mod.rs:763-767 | the state changes of a switch, which `TaskStates.YieldIs` and `TaskStates.PreemptIs` say task by task |
| `SchedulerObject.CpuScheduler.Yield` | src/task/mod.rs:752-780 | equals `RunQueue.Yield`, about which `TaskStates.YieldIs` |
| `SchedulerObject.CpuScheduler.Preempt` | src/task/mod.rs:917-960 | equals `RunQueue.Preempt`, about which `TaskStates.PreemptIs` |
| `SchedulerObject.CpuScheduler.Wake` | src/task/mod.rs:851-857 | makes every sleeper whose tick has come Ready |
| `SchedulerObject.CpuScheduler.Kill` | src/task/mod.rs:645-670 | marks the task Dead and reports whether it was found |
| `SchedulerObject.CpuScheduler.ReapDead` | src/task/mod.rs:686-723 | the removal loop with its index shifts equals `RunQueue.Reap` |
| `SchedulerObject.CpuScheduler.TakeVictim` | src/task/mod.rs:592-642 | takes the first stealable task and repairs the current index |
| `InodeTree.AttachOk` | src/fs/mod.rs:84-103 | allocating an inode, from a tombstone or a new slot, and entering it keeps the tree |
| `InodeTree.MkdirOk` | src/fs/mod.rs:221-246 | keeps the tree; succeeds exactly when the parent is a directory without that name; a failure changes nothing and says which of the two was wrong |
| `InodeTree.CreateFileOk` | src/fs/mod.rs:249-282 | keeps the tree; succeeds exactly in a directory where the name is new or a file, then adds that file or replaces its content, and changes no other inode; a failure changes nothing and says why |
| `InodeTree.CreateSpecialIff` | src/fs/mod.rs:304-339 | the unchecked creators keep the tree exactly when the name is new in its directory |
| `InodeRuns.TwiceCreated` | src/fs/mod.rs:304-339 | creating the same special entry twice in an empty root leaves no tree |
| `InodeTree.UnderChild` | src/fs/mod.rs:409-416 | the strict subtree of a directory is the union of the subtrees of its entries |
| `InodeTree.CollectOk` | src/fs/mod.rs:409-416 | the recursion visits every inode of the strict subtree exactly once and no other |
| `InodeTree.BuryOk` | src/fs/mod.rs:396-403 | the clean-up loop makes tombstones of exactly the listed inodes and appends them to the free list |
| `InodeTree.RemoveOk` | src/fs/mod.rs:376-406 | refuses the root as protected and dead inodes as not found; otherwise tombstones exactly the subtree, adds each of it to the free list once, and leaves a tree |
| `InodePaths.WalkNames` | src/fs/mod.rs:186-215 | with good names, the names on the way to an inode lead to it |
| `InodePaths.WalkNamesAll` | src/fs/mod.rs:186-215 | a walk that enters a subtree from outside names its top |
| `InodePaths.RoundTripIff` | src/fs/mod.rs:174-218 | resolve_path(get_path(id)) is id exactly when every name on the way is non-empty, not "." or "..", without slash, and the last does not end in white space |
| `RelativePaths.RelativeIff` | src/fs/mod.rs:174-218 | for every inode below the working directory, the names on the way down, joined by slashes, resolve to it exactly when each is non-empty, not "." or "..", without slash, the first does not begin in white space and the last does not end in it |
| `RelativePaths.RelativeIsAbsolute` | src/fs/mod.rs:174-218 | resolving a relative path is resolving it after the printed path of the working directory, ".." and errors included, for all relative paths exactly when every name on the way to the working directory is good |
| `RelativePaths.WhiteAround` | src/fs/mod.rs:175-178 | white space around a path does not matter, and a blank path is the working directory |
| `RelativePaths.ResolveStep` | src/fs/mod.rs:180-218 | one segment more means entering it from where the path leads, or the same error |
| `RelativePaths.ResolveFirst` | src/fs/mod.rs:180-184 | a single segment is looked up in the working directory, and after a slash in the root |
| `RelativePaths.EnterIs` | src/fs/mod.rs:186-218 | "" and "." stay; ".." leads to the directory that holds the inode and stays at the root; any other segment leads to the entry of that name, or fails for want of it or of a directory |
| `RelativePaths.UpAndDown` | src/fs/mod.rs:174-218 | after any path that resolves, "/.." leads to the directory that holds the inode found, and "/name" to its entry of that name |
| `RelativePaths.WalkExact` | src/fs/mod.rs:186-218 | no walk goes deeper than it has segments, and one that goes that deep has spelt exactly the names on the way |
| `InodeRuns.StepOk` | src/fs/mod.rs:221-406 | every call keeps the tree and moves no live inode, and the table grows only to the number in use |
| `InodeRuns.HistoryOk` | src/fs/mod.rs:105-406 | after every history from the empty root the inodes form a tree the resolver can follow and the free list is exactly its tombstones |
| `InodeRuns.PathStable` | src/fs/mod.rs:355-372 | an inode that is never removed prints the same path whatever else is created or removed |
| `InodeRuns.ContentLasts` | src/fs/mod.rs:249-282 | a file keeps its contents through every history that neither overwrites nor removes it |
| `InodeRuns.WriteLasts` | src/fs/mod.rs:249-372 | what a successful write stores is still there, under the same path, after every such history, and the path resolves to it exactly when it can be read back |
| `InodeRuns.TableIsPeak` | src/fs/mod.rs:84-103 | tombstones are reused first: the table size is the largest number of inodes ever in use |
| `VfsObject.Vfs.constructor` | src/fs/mod.rs:106-118 | the root directory alone |
| `VfsObject.Vfs.FindEntry` | src/fs/mod.rs:200-205 | the search loop over a directory |
| `VfsObject.Vfs.AllocateInode` | src/fs/mod.rs:84-103 | reuses the last tombstone or appends |
| `VfsObject.Vfs.MkdirAt` | src/fs/mod.rs:221-246 | equals `InodeTree.Mkdir` |
| `VfsObject.Vfs.CreateFileAt` | src/fs/mod.rs:249-282 | equals `InodeTree.CreateFile` |
| `VfsObject.Vfs.CreateSpecialAt` | src/fs/mod.rs:304-339 | equals `InodeTree.CreateSpecial`, and leaves a tree exactly when the name was new |
| `VfsObject.Vfs.CollectDescendants` | src/fs/mod.rs:409-416 | the recursion into an accumulator appends exactly `InodeTree.Collect` |
| `VfsObject.Vfs.RemoveEntry` | src/fs/mod.rs:376-406 | equals `InodeTree.Remove` |
| `VfsObject.Vfs.ResolvePath` | src/fs/mod.rs:174-218 | the segment loop equals `InodePaths.Resolve`, about which `InodePaths.RoundTripIff` and the theorems of `RelativePaths` |
| `VfsObject.Vfs.PathOf` | src/fs/mod.rs:355-372 | the climbing loop terminates and equals `InodePaths.GetPath` |
| `FatEntries.RetargetOk` | src/fs/fat32.rs:698-701 | a patched entry gives back its cluster and size and keeps its name and attributes |
| `FatEntries.ShortNameFits` | src/fs/fat32.rs:613-631 | an entry made from an 8.3 name is found under that name |
| `FatDirs.FindFirst` | src/fs/fat32.rs:462-533 | a search of a clean directory gives the first match, and nothing only when nothing matches |
| `FatDirs.EnteredFinds` | src/fs/fat32.rs:772-824 | after entering a new name it is found in its slot and every other search is as before |
| `FatDirs.PatchFinds` | src/fs/fat32.rs:692-703 | overwriting an entry with the same name and attributes changes no search |
| `FatDirs.DeleteFinds` | src/fs/fat32.rs:846-849 | marking a slot deleted hides its name and changes no other search |
| `FatDirs.ReadAfter` | src/fs/fat32.rs:536-610 | if one file of one directory changes, paths that name it read the new bytes and every other path reads as before |
| `FatDirs.ReadAround` | src/fs/fat32.rs:719-769 | if a directory is added under a new name, paths through that name could not be read before and every other path reads as before, errors included |
| `FatChains.FreeChainExact` | src/fs/fat32.rs:388-395 | releasing frees exactly the clusters reachable from the first one, also on a cyclic table, and ends |
| `FatChains.FreeLinked` | src/fs/fat32.rs:388-395 | on a chain it frees exactly the clusters of the chain |
| `FatChains.LinkedUnique` | src/fs/fat32.rs:388-395 | there is one chain from a head, and it has no cluster twice |
| `FatChains.AllocateOk` | src/fs/fat32.rs:366-385 | takes the lowest free cluster, ends the chain there, links it after the previous one, zeroes it, and changes nothing else; fails only when none is free |
| `FatChains.AllocateManyOk` | src/fs/fat32.rs:657-666 | allocating a chain takes free clusters only, links them in order and touches nothing else |
| `FatSpace.AllocateManyCount` | src/fs/fat32.rs:657-666 | the loop gets the clusters it asks for, or every free one there is |
| `FatVolume.PatchSlotOk` | src/fs/fat32.rs:695-703 | overwriting a slot changes that slot only, and only clusters of its directory |
| `FatVolume.FillOk` | src/fs/fat32.rs:668-685 | filling a chain stores the bytes in order and touches no other cluster |
| `FatFiles.MeaningOk` | src/fs/fat32.rs:398-459 | a well-formed volume has clean directories and contents for every file |
| `FatFiles.Frame` | src/fs/fat32.rs:366-395 | changing only clusters outside all chains changes nothing a caller can see |
| `FatFiles.ChangedOk` | src/fs/fat32.rs:772-824 | changing one slot keeps the volume well formed and changes its meaning at that slot only |
| `FatWrites.StageOk` | src/fs/fat32.rs:657-685 | allocating and filling a new chain is invisible; it fails only on a full volume |
| `FatWrites.ReplaceUpdates` | src/fs/fat32.rs:692-703 | releasing the old chain and repointing the entry updates one file |
| `FatWrites.DeleteClears` | src/fs/fat32.rs:844-849 | releasing the chain and marking the slot removes one file |
| `FatTheorems.WriteOk` | src/fs/fat32.rs:634-716 | a failed write changes no meaning; a successful one changes exactly the file written and keeps chains disjoint |
| `FatMakeDir.MkdirOk` | src/fs/fat32.rs:719-769 | a failed create_dir changes no meaning; a successful one adds an empty directory and changes no other search |
| `FatRuns.WriteFileOk` | src/fs/fat32.rs:634-716 | after a successful write every path to the file reads the bytes (up to the 32-bit size) and every other path reads as before; after a failed one every path does; failures are a full volume or a bad parent |
| `FatNames.UpperIff` | src/fs/fat32.rs:617 | two names are equal in upper case exactly when they differ only in the case of ASCII letters |
| `FatNames.CaseBlind` | src/fs/fat32.rs:467-504 | paths that differ only in the case of ASCII letters read the same and name the same file |
| `FatNames.SameFileIff` | src/fs/fat32.rs:467-504 | in one directory two names are the same file exactly when they differ in letter case alone |
| `FatNames.ReadInAnyCase` | src/fs/fat32.rs:634-716 | what was written under a path is read back under every spelling of it |
| `FatNames.StoredUpper` | src/fs/fat32.rs:613-631 | a stored short name holds no lower-case letter |
| `FatNames.ReadIs` | src/fs/fat32.rs:574-610 | reading is finding the directory and then the entry, and the error is that of the step that failed: not found, or a directory |
| `FatNames.FirstFailure` | src/fs/fat32.rs:535-571 | the first component of a path that is missing, or is no directory, decides the error |
| `FatNames.DeleteIff` | src/fs/fat32.rs:827-852 | a delete succeeds exactly when the path can be read; otherwise it gives the error that reading gives and changes nothing |
| `FatNames.CreateDirFails` | src/fs/fat32.rs:719-769 | create_dir refuses an existing name as such and a bad parent with the error that reading gives, and both change nothing; a new name fails only for want of a cluster or of a directory behind the parent |
| `FatEntries.RetargetBytes` | src/fs/fat32.rs:684-702 | where the cluster and the size of an entry stand on disk, low byte first; the other bytes stay |
| `FatEntries.KindBits` | src/fs/fat32.rs:480-490 | an entry is a directory by bit 0x10, and hidden exactly when unused or marked 0x08 without 0x10; the separate check for long-name pieces adds nothing |
| `FatRuns.DeleteFileOk` | src/fs/fat32.rs:827-852 | after a delete no path finds the file and every other path reads as before |
| `FatRuns.CreateDirOk` | src/fs/fat32.rs:719-769 | after a directory is created every path that does not go through its name reads as before, errors included, and those that do could not be read before; after a failure every path reads as before |
| `FatRuns.FormattedOk` | src/fs/fat32.rs:198-226 | a formatted volume is well formed and empty |
| `FatRuns.RunOk` | src/fs/fat32.rs:580-852 | after every history the volume is well formed, and a file nobody writes or deletes keeps its bytes |
| `FatRuns.WriteLasts` | src/fs/fat32.rs:580-716 | what was written is read back after any history that spares the file |
| `FatRuns.FormattedHistory` | src/fs/fat32.rs:111-249 | every history of a fresh volume keeps it well formed |
| `FatSpace.WriteIff` | src/fs/fat32.rs:634-716 | a write succeeds exactly when the bytes fit the free clusters and there is at least one, and one more if a new name meets a full directory; overwriting needs them besides the old chain |
| `FatSpace.WriteChain` | src/fs/fat32.rs:654-671 | the chain of a written file is the shortest that holds the bytes, of one cluster at least, and no other file changes its chain |
| `FatSpace.FreshWriteIff` | src/fs/fat32.rs:634-716 | on a freshly formatted volume a new file can be written exactly when a cluster is free and the bytes fit the free clusters |
| `FatSpace.WriteSpace` | src/fs/fat32.rs:634-716 | a successful write loses no cluster; a failed one loses exactly what it had taken |
| `FatSpace.OversizedWrite` | src/fs/fat32.rs:634-666 | one write too large for a freshly formatted volume fails and loses every free cluster |
| `FatSpace.DeleteSpace` | src/fs/fat32.rs:827-852 | deleting a file loses no cluster |
| `FatSpace.MkdirSpace` | src/fs/fat32.rs:719-769 | a directory is made exactly when the name is new and there is room; failure loses one cluster exactly when the parent had no place for it |
| `FatSpace.RunSpace` | src/fs/fat32.rs:580-852 | over every history exactly the clusters of failed calls are lost, and none is found again |
| `FatSpace.FormattedSpace` | src/fs/fat32.rs:111-249 | on a formatted volume every cluster is free, in a chain, or lost by a counted failure |
| `FatDisk.SectorWrite` | src/fs/fat32.rs:316-320 | writing a sector of a cluster changes those bytes of the volume and nothing else, table copies included |
| `FatDisk.SectorRead` | src/fs/fat32.rs:316-320 | reading a sector of a cluster gives those bytes |
| `FatDisk.TableWrite` | src/fs/fat32.rs:342-363 | writing an entry into every copy sets that entry, keeps all other entries and data, and keeps the copies equal |
| `FatDisk.PutWordReads` | src/fs/fat32.rs:352-357 | the patched word reads back the low 28 bits and disturbs no other entry |
| `FatFormat.MountAfterFormat` | src/fs/fat32.rs:252-314 | mounting what format wrote gives back its geometry |
| `FatFormat.LaidView` | src/fs/fat32.rs:198-226 | a formatted disk reads as the formatted volume |
| `FatFormat.TablesFit` | src/fs/fat32.rs:117-139 | a table copy is the least number of sectors, sixteen or more, that holds an entry for every cluster; only volumes below 1024 sectors are refused, since the second check of the source never fires |
| `FatFormat.FsInfoTrue` | src/fs/fat32.rs:188-196 | the information sector counts exactly the free entries of the new table and points to the first |
| `FatFormat.Format` | src/fs/fat32.rs:111-249 | refuses exactly the volumes below 1024 sectors; otherwise leaves mirrored tables, a true information sector and a well-formed empty volume that mounts, and every sector outside the volume as it was |
| `FatObject.Fat32Fs.ReadFatEntry` | src/fs/fat32.rs:323-339 | reads the entry of the volume |
| `FatObject.Fat32Fs.WriteFatEntry` | src/fs/fat32.rs:342-363 | the loop over the copies sets one entry and keeps the copies equal |
| `FatObject.Fat32Fs.AllocateCluster` | src/fs/fat32.rs:366-385 | equals `FatChains.Allocate` |
| `FatObject.Fat32Fs.FreeClusterChain` | src/fs/fat32.rs:388-395 | the loop terminates and equals `FatChains.FreeChain` |
| `FatObject.Fat32Fs.FindEntryInDir` | src/fs/fat32.rs:462-533 | the cluster, sector and slot loops equal `FatDirs.Find` |
| `FatObject.Fat32Fs.ReadChain` | src/fs/fat32.rs:588-609 | the read loop gives the first bytes along the chain |
| `FatObject.Fat32Fs.FillChain` | src/fs/fat32.rs:668-685 | the write loop equals `FatVolume.Fill` |
| `FatObject.Fat32Fs.InsertDirEntry` | src/fs/fat32.rs:772-824 | the slot search and the growth equal `FatWrites.InsertIn` |
| `FatObject.Fat32Fs.ResolveDirectory` | src/fs/fat32.rs:536-577 | the component loop equals `FatDirs.DirectoryFrom` |
| `FatObject.Fat32Fs.ReadFile` | src/fs/fat32.rs:580-610 | equals `FatRuns.ReadFile` |
| `FatObject.Fat32Fs.WriteFile` | src/fs/fat32.rs:634-716 | equals `FatRuns.WriteFile`, about which `FatRuns.WriteFileOk` and `FatSpace.WriteIff` |
| `FatObject.Fat32Fs.DeleteEntry` | src/fs/fat32.rs:827-852 | equals `FatRuns.DeleteFile` |
| `FatObject.Fat32Fs.CreateDir` | src/fs/fat32.rs:719-769 | equals `FatRuns.CreateDir` |
| `SerialRing.SlotsApart` | src/drivers/serial.rs:180-192 | the slot about to be written is never one the consumer may still read |
| `SerialRing.NextKeeps` | src/drivers/serial.rs:180-208 | every single memory access of either side keeps the ring a bounded FIFO |
| `SerialRing.VerdictsExact` | src/drivers/serial.rs:180-201 | a byte is dropped exactly when 8191 are held, and a pop finds nothing exactly when none is |
| `SerialRing.RunGood` | src/drivers/serial.rs:180-225 | after every interleaving the accepted bytes are the popped ones followed by those held, at most 8191 are held, and attempts are accepted, dropped or under way |
| `SerialRing.FromStart` | src/drivers/serial.rs:164-225 | from an empty ring, after every interleaving the accepted bytes are those popped, in order, and then those held |
| `SerialRing.PushIs` | src/drivers/serial.rs:180-192 | an undisturbed push appends the byte or counts a drop |
| `SerialObject.PushAllIs` | src/drivers/serial.rs:261-271 | writing keeps the longest prefix that fits and counts the rest as dropped |
| `SerialObject.PerCpuSerialBuffer.PushByte` | src/drivers/serial.rs:180-192 | appends, or counts a drop when full |
| `SerialObject.PerCpuSerialBuffer.PopByte` | src/drivers/serial.rs:196-208 | gives the oldest byte, or nothing |
| `SerialObject.PerCpuSerialBuffer.Len` | src/drivers/serial.rs:211-215 | the number of bytes held |
| `SerialObject.PerCpuSerialBuffer.TakeDropped` | src/drivers/serial.rs:223-225 | returns and resets the drop count |
| `SerialObject.PerCpuSerialBuffer.WriteStr` | src/drivers/serial.rs:261-271 | pushes the text with a carriage return before each line feed |
| `SerialObject.PerCpuSerialBuffer.Drain` | src/drivers/serial.rs:308-320 | sends the notice if bytes were dropped, then everything held, oldest first |
| `SerialObject.FlushAll` | src/drivers/serial.rs:281-322 | with buffering active, the port free and a byte in some ring, sends the output of each ring in turn and leaves every ring empty; otherwise does nothing |
| `SerialObject.AnyPending` | src/drivers/serial.rs:288-298 | the quick check finds a byte in some ring; counted drops alone do not show |
| `SerialObject.DrainAll` | src/drivers/serial.rs:305-321 | the drain loop sends the output of each ring in turn and leaves every ring empty |
| `InternetChecksum.FoldResidue` | src/net/ipv4.rs:51-53 | folding keeps the residue modulo 65535 in 1 to 65535, and only zero gives zero |
| `InternetChecksum.ChecksToZero` | src/net/ipv4.rs:39-55 | a block checks to zero exactly when its words sum to a positive multiple of 65535 |
| `InternetChecksum.OddAsPadded` | src/net/ipv4.rs:47-50 | an odd number of bytes sums as if a zero byte followed |
| `InternetChecksum.Completes` | src/net/ipv4.rs:39-55 | on anything that fits a packet the computed value, put in place of the zero word, makes the block check to zero |
| `InternetChecksum.CompletesIff` | src/net/ipv4.rs:39-55 | in general the block then checks to zero exactly when the 32-bit sum does not wrap in between |
| `InternetChecksum.CalculateChecksum` | src/net/ipv4.rs:39-55 | the two loops equal the specification, with the wrapping 32-bit sum |
| `Packets.HeaderChecks` | src/net/ipv4.rs:129-163 | every header from new re-checks to zero |
| `Packets.Parse4Of` | src/net/ipv4.rs:79-126 | what the parser makes of a packet from new, with any bytes after it, for every payload length |
| `Packets.PanicsIff` | src/net/ipv4.rs:79-112 | for all received bytes: the parser slices out of range exactly when a header of 20 to 60 bytes is there, its words sum to a positive multiple of 65535, and its total length is below its own length |
| `Packets.ShortTotalPanics` | src/net/ipv4.rs:79-112 | any ten bytes and options that announce such a length, completed with their checksum and followed by anything, make the parser slice out of range |
| `Packets.EmptyTotalPanics` | src/net/ipv4.rs:79-108 | such a header, twenty bytes with total length zero |
| `Packets.RoundTrip4` | src/net/ipv4.rs:79-180 | a packet parses back to itself exactly when its payload has at most 65515 bytes |
| `Packets.Parsed4Iff` | src/net/ipv4.rs:76-129 | the parser accepts exactly a header of 20 to 60 bytes that is there, checks, and announces a packet that is there; the header then is the first twenty bytes and the payload what follows it |
| `Packets.Reserialize4` | src/net/ipv4.rs:165-179 | what was parsed without options serializes back to the bytes it was parsed from |
| `Packets.UdpChecks` | src/net/udp.rs:57-87 | the checksum field is never zero, and the datagram checks to zero with its pseudo-header exactly when the 32-bit sum does not wrap, as it never does up to 131052 bytes |
| `Packets.RoundTripUdp` | src/net/udp.rs:30-101 | a datagram parses back to itself exactly when its payload has at most 65527 bytes |
| `Packets.ParsedUdpIff` | src/net/udp.rs:30-55 | the parser accepts exactly a datagram whose announced length, eight at least, is there, and what it gives serializes back to those bytes |
| `Packets.Layered` | src/net/udp.rs:30-101 | UDP in IPv4 in a padded Ethernet frame delivers the addresses, ports and bytes of the sender, in headers that check, exactly when the payload has at most 65507 bytes |
| `Packets.OnTheWire` | src/net/ethernet.rs:67-82 | where each field of a sent frame stands, byte by byte; zeros after the payload, and never fewer than sixty bytes |
| `Packets.RoundTripFrame` | src/net/ethernet.rs:45-82 | a frame parses back to itself with the zero padding at the end |
| `Packets.ParsedFrameIff` | src/net/ethernet.rs:45-64 | the parser accepts exactly fourteen bytes or more, and what it gives serializes back to the bytes, padded |
| `Packets.WriteFrame` | src/net/ethernet.rs:69-82 | the pad loop equals the specification and gives at least 60 bytes |

## Left out

- The drivers (ATA, PCI, e1000, VGA, keyboard, timers, interrupt controllers), the shell, the GUI, logging, ACPI and boot apart from its page tables: hardware plumbing or user interface.
- Inline assembly, TLB flushes and the saved stacks of tasks: a task switch is one atomic step together with its locked section, although the lock is released just before the switch.
- Spinlocks: locked sections exclude each other, and memory accesses of the serial ring are sequentially consistent.
- Page-table entries are records of the address and the bits the walk reads; entries with HUGE_PAGE belong to the kernel only, and user pages lie in a PDPT slot of PML4[0] that the kernel leaves absent.
- The ELF loader, `allocate_user_code`, `allocate_user_stack` and `allocate_and_map_page`: the last clears one byte of the frame only, so zero-fill is stated for demand faults and MAP_POPULATE.
- Overflow of 64-bit addresses and sizes, and the panic of `size_align` on layouts near the address limit.
- Spaces.StepOk: excludes pages in the kernel's own slots, and a request for a page while the pool is neither empty nor sufficient, because a frame is then both free and in use (Spaces.StepIff: exactly then; Boot.FirstFault: an input).
- SpaceRuns.RunKeeps: excludes, for the same reason, runs with such a request (SpaceRuns.StepKeepsIff); spaces are created under new names.
- SpaceRuns.StepKeeps: excludes the same request.
- Boot.BootRuns: excludes runs with such a request; Boot.FirstFault shows one.
- Mmap.MmapOk: excludes a populate that meets such a pool; Mmap.MmapShort says what it leaves.
- Spaces.StoreOk: outside the user range, requires that no entry the kernel shares carries the user right, as Boot.BootStores shows of the loader's tables.
- SpaceRuns.RunRecords: excludes a munmap inside the heap, after which the heap is no longer one area (Spaces.MunmapKeepsHeapIff: exactly then; Spaces.SplitHeapOverlaps: areas that overlap afterwards).
- The tick counter of a run queue, which nothing reads.
- RunQueue.BoundedBypass: selection and context switch are one step.
- The working directory of the file system may be a removed inode; only its number is required to be in the table.
- RelativePaths.RelativeIff: requires a working directory that has not been removed, as do the other theorems on relative paths.
- TaskStates.SleepsUntil: requires that no other task of the queue has the number of the sleeper.
- TaskStates.KilledForGood: requires that no two tasks of the queue have the number killed.
- File contents of /proc and /dev entries, and directory listings.
- FAT32 on volumes with bad geometry or links that leave the table, disk errors, long names, names that are not ASCII, deleting or overwriting directories, the information sector after formatting, and arithmetic beyond 32 bits. Path strings are lists of components, and error messages are collapsed into kinds.
- FatTheorems.WriteOk: requires an 8.3 name when the target is absent, and a target that is not a directory.
- FatRuns.WriteFileOk: requires the same of the target of the path.
- FatSpace.WriteIff: requires the same of the name and the target.
- FatSpace.WriteSpace: requires the same.
- FatSpace.DeleteSpace: requires a target that is not a directory.
- FatObject.Fat32Fs.WriteFile: requires an 8.3 name when the target is absent, and a target that is not a directory.
- FatMakeDir.MkdirOk: requires an 8.3 name when it is new.
- FatObject.Fat32Fs.CreateDir: requires an 8.3 name.
- FatRuns.DeleteFileOk: requires a target that is not a directory.
- FatObject.Fat32Fs.DeleteEntry: requires the same.
- FatNames.DeleteIff: requires the same.
- FatNames.CreateDirFails: requires an 8.3 name.
- FatNames.ReadInAnyCase: requires the same as FatRuns.WriteFileOk.
- FatSpace.FreshWriteIff: requires an 8.3 name.
- Protection.PopulateRights: requires the same as Mmap.MmapOk.
- Protection.StoreRights: requires an address in the user range and records in step with the tables.
- FatFormat.Format: requires at most 0x0FFFFFF7 sectors, so that cluster numbers fit 28 bits.
- ARP, ICMP, TCP and the routing between protocols; Ethernet frames longer than the medium allows are not refused by the source and not by the model.
