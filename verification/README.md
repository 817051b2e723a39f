# x01 kernel: models and proofs

x01 is a small uniprocessor kernel for the Raspberry Pi.  This project models
the parts of it that carry algorithms, in Dafny, and proves what they promise.

- **Physical memory** (`BuddySpec`, `Buddy`, `BuddyRuns`, `FramesSpec`,
  `FrameAllocator`): the 13-level buddy bitmap packed into 32-bit limbs, updated
  in place; it is proved to be a redundant index over the flat set of busy
  frames, for any number of frames.  On top of it, the transactional frame
  allocator with its per-frame records.
- **Virtual memory** (`Word`, `Fields`, `Descriptors`, `PageTables`, `MapSpec`,
  `Mmu`, `Boot`, `VmArea`, `FullPages`): the bit fields, the ARMv6 short descriptors (section B4.7
  of the ARM Architecture Reference Manual, DDI 0100I), mapping,
  unmapping and translation at all four units, the boot tables, and the
  allocator of address ranges.  Mapping and then translating is arithmetic, and
  addresses outside the range are untouched.  `FullPages` puts frames, addresses and mappings together.
- **Concurrency on one processor** (`SchedSpec`, `Scheduler`, `WheelSpec`,
  `TimerWheel`, `IoSpec`, `IoQueue`, `Interrupts`, `InterruptEntry`): state machines
  whose steps are the regions with preemption disabled (for the interrupt levels:
  single accesses), invariants over all their runs, and classes whose methods
  refine the steps.
- **Slab allocator and lists** (`SlabSpec`, `SlubSpec`, `Slub`, `Lists`): free lists
  threaded through page contents, and circular doubly linked lists.

C integers are mathematical integers with the widths written out: a `word` is an
integer below 2^32, and shifts, masks and rotations are defined bit by bit.
A method body that the proofs would have made too long is split into small
methods; each has its own contract.  Where the code asserts something, the model
asserts it too, and the proof is that it holds.

`Shift`, `Word`, `Sequences` and `Wrappers` are the shared base.  `dafny verify dfyconfig.toml` checks everything.

## Where the code and its promises part

- **Unmapping several pages** reuses the loop variable `pa` for the base of the table
  (`src/kernel/mmu.c:384`) and then compares it with the start of the request
  (`src/kernel/mmu.c:371`).  `Unmap` succeeds exactly when that comparison holds;
  `PaCheckGeneral` gives the condition in terms of the request and the tables, for any
  request; `PaCheckDynamic` and `PaCheckStatic` for one wholly outside or inside the static window;
  `PaCheckCanFail` a request that fails.  A single unit always passes.
- **Releasing a whole page does not unmap it** (`src/kernel/slub.c:404-419`): its address can be given out
  again, and the mapping then asserts that it is not mapped.  `Alloc` of module `FullPages` says exactly when
  that happens; `AllocFreeAlloc` is the shortest way there.
- **The last block of a level** can be partial, since levels round up.  A block means its
  existing frames; `BootReservation` says when the 1MB block reserved at boot is full.
- **The four-way overlap test** reports an empty range inside a segment
  (`FourWayOnEmptyRange`); the kernel never asks for one.
- **The map is sized in bytes and accessed in 32-bit limbs** (`src/kernel/bdy.c:33`,
  `src/kernel/bdy.c:67`): the model's storage is whole limbs.
- **A mutex's waiters, and an I/O request's, can be the current thread**: a thread that has
  queued itself stays current until the scheduler is called.  `Partition` says exactly this.
- **Sizes above one page** are refused by an assertion in the page path (`src/kernel/slub.c:287`),
  although the size classes go up to 64MB; `KmallocClass` says so.

The conditions under which the code delivers, and which the models therefore require: timers are
armed only while none is due (`src/kernel/schedc.c:335`); a device completes only the request it was
given; a request is submitted again only when it is off the queue and nobody is still in a wait for it;
only its holder unlocks a mutex; only a live block, object or segment is freed, once; and mapping pages
finds as many fresh tables as it needs (`TablesNeeded`).

## Model

| member | source | states |
|---|---|---|
| `Buddy.MapSize` | src/kernel/bdy.c:21-34 | the byte count is the number of bits of all levels divided by 8, rounded up, and at most two pages for up to 32768 frames |
| `Buddy.FillLevels` | src/kernel/bdy.c:45-53 | the tables hold the width and the first bit of every level |
| `BuddySpec.PackingInjective` | src/kernel/bdy.c:60-97 | distinct valid (level, position) pairs have distinct bits, all below the packed total |
| `BuddySpec.WriteOne` | src/kernel/bdy.c:75-97 | setting or clearing one pair changes no other pair and nothing above the total |
| `BuddySpec.TwoPagesSuffice` | src/kernel/pm.c:72-76 | the bound behind the two-page assertion, for every memory up to 128MB, odd level widths included |
| `Buddy.UnpackWrite` | src/kernel/bdy.c:84-96 | writing a bit of a 32-bit limb is writing one entry of the bit string |
| `Buddy.Bitmap.constructor` | src/kernel/bdy.c:36-54 | a fresh bitmap has every bit clear, is consistent, and has no busy frame |
| `Buddy.Bitmap.IsSet` | src/kernel/bdy.c:60-73 | reads the bit of its pair |
| `Buddy.Bitmap.Set` | src/kernel/bdy.c:87-97 | writes exactly the bit of its pair |
| `Buddy.Bitmap.Clear` | src/kernel/bdy.c:75-85 | clears exactly the bit of its pair |
| `Buddy.Bitmap.FindClear` | src/kernel/bdy.c:103-108 | finds the lowest clear bit of a level |
| `Buddy.Bitmap.Alloc` | src/kernel/bdy.c:99-130 | first fit: takes the lowest block whose existing frames are all free, fails iff there is none and then leaves the bitmap alone; on success exactly that block's frames become busy and the index stays exact |
| `Buddy.Bitmap.Free` | src/kernel/bdy.c:132-167 | exactly the block's frames stop being busy, and the index stays exact at every level |
| `Buddy.Bitmap.ClearAncestors` | src/kernel/bdy.c:147-165 | the upward walk, stopping at the first busy sibling, makes every parent bit exact again |
| `BuddySpec.Exactness` | src/kernel/bdy.c:112-165 | in a consistent bitmap the bit at (level, pos) is set iff some existing frame of that block is busy, by induction over odd-width levels |
| `BuddySpec.BlockExtent` | src/kernel/bdy.c:117-125 | a block covers its aligned range cut off at the last existing frame, and is never empty |
| `BuddySpec.MarkedConsistent` | src/kernel/bdy.c:112-125 | setting a block, its ancestors and its descendants keeps every parent bit the OR of its children |
| `BuddySpec.ClearedClimb` | src/kernel/bdy.c:149-165 | with a clear or absent sibling, clearing carries the walk's invariant one level up |
| `BuddySpec.ClearedStop` | src/kernel/bdy.c:158-160 | with a busy sibling, stopping leaves every parent bit exact |
| `BuddySpec.DeterminedByFrames` | src/kernel/bdy.c:36-54 | two consistent bitmaps with the same busy frames are the same bits at every level |
| `BuddySpec.FreeUndoesAlloc` | src/kernel/bdy.c:99-167 | freeing a block just allocated restores the bitmap bit for bit |
| `BuddyRuns.StepInv` | src/kernel/bdy.c:99-167 | each allocation, and each free of a live block, keeps the index consistent and the busy frames exactly the union of the pairwise disjoint live blocks |
| `BuddyRuns.BitsTellLiveBlocks` | src/kernel/bdy.c:99-167 | in every state of every run, live blocks share no frame and a bit is set iff some live block has a frame in its block |
| `BuddyRuns.AllFreedIsFresh` | src/kernel/bdy.c:132-167 | a run that ends with nothing live, in whatever order it freed, ends with the bitmap it began with |
| `FramesSpec.OwnAlloc` | src/kernel/bdy.c:112-125 | taking a free block keeps live blocks disjoint and their union the busy frames |
| `FramesSpec.OwnFree` | src/kernel/bdy.c:136-165 | so does releasing a live block |
| `FramesSpec.FreeAllEmpties` | src/kernel/bdy.c:132-167 | freeing all live blocks, in any order, leaves no busy frame |
| `FramesSpec.FullRangesDisjoint` | src/kernel/pm.c:181-190 | two live blocks do not overlap even past the last frame, so their records do not either |
| `FramesSpec.FreeListFrom` | src/kernel/bdy.c:103-105 | the free list: exactly the free positions of a level, ascending |
| `FramesSpec.TakeLeaves` | src/kernel/pm.c:149-154 | taking the first k free blocks one by one leaves the rest of the free list |
| `FramesSpec.NextFit` | src/kernel/pm.c:149-154 | the k-th allocation of the loop gets entry k of the free list, or fails iff the list has no entry k |
| `FramesSpec.TakeBack` | src/kernel/pm.c:164-165 | giving the last taken block back undoes taking it |
| `FramesSpec.TakeOwns` | src/kernel/pm.c:149-154 | after k allocations exactly those k blocks have become live |
| `FramesSpec.BootReservation` | src/kernel/pm.c:79-97 | a fresh memory of at least 8MB gives 0, 2MB, 4MB, 6MB; the next 1MB block exists iff there is more than 8MB, and is full iff there are at least 9MB |
| `FramesSpec.BootFrames` | src/kernel/pm.c:79-97 | the frames busy after each of the two reservations |
| `FrameAllocator.PhysMem.constructor` | src/kernel/pm.c:67-77 | RAM is cut to 128MB, and nothing is busy |
| `FrameAllocator.PhysMem.RamAllocBlocks` | src/kernel/pm.c:143-167 | all or nothing: succeeds iff 0 < n and n blocks are free, then takes the n lowest; else the whole bitmap is unchanged |
| `FrameAllocator.PhysMem.TakeBlocks` | src/kernel/pm.c:149-154 | the loop takes free blocks in order until n are taken or none is left |
| `FrameAllocator.PhysMem.Rollback` | src/kernel/pm.c:164-166 | gives back what was taken, bit for bit |
| `FrameAllocator.PhysMem.ReserveBoot` | src/kernel/pm.c:79-97 | the asserted addresses; succeeds iff there is more than 8MB; exactly which frames are busy, and which blocks reserved, afterwards; the allocator's invariant holds |
| `FrameAllocator.BootOwns` | src/kernel/pm.c:79-97 | the blocks reserved at boot are disjoint and own exactly the frames that the reservations made busy |
| `FrameAllocator.PmInit` | src/kernel/pm.c:59-97 | from the memory size to an allocator that can be used: it manages all frames up to 128MB, exactly the first 9MB (or, on failure, 8MB) are busy, and page k handed out is that at 9MB + 4KB * k |
| `FrameAllocator.PagesAfterBoot` | src/kernel/pm.c:79-97 | the free pages after boot are exactly those from 9MB on, in order |
| `FrameAllocator.AboveBoot` | src/kernel/pm.c:138-140 | beside the reserved blocks, a live block lies wholly above the first 2304 frames, addresses past the last frame included |
| `FrameAllocator.PhysMem.RamAlloc` | src/kernel/pm.c:169-195 | on success the n lowest free blocks are live, their addresses returned, all their frame records rewritten and no other; after boot all addresses are at or above 9MB; on failure nothing changed |
| `FrameAllocator.PhysMem.RamFree` | src/kernel/pm.c:198-242 | for live blocks of that unit and use no assertion fails, exactly those blocks stop being live, and only their reference counts are cleared |
| `FrameAllocator.PhysMem.FreeOne` | src/kernel/pm.c:209-237 | one block: alignment, unit, use and count checks hold |
| `FrameAllocator.AddressesOfFree` | src/kernel/pm.c:149-161 | the addresses handed out are strictly ascending, naturally aligned, disjoint, all free before, and pass over no free block |
| `FrameAllocator.StampsKept` | src/kernel/pm.c:181-190 | records of live blocks stay right when new blocks are recorded |
| `Word.SameBits` | src/include/types.h:43-60 | two numbers with the same bits are equal: the principle behind all field laws |
| `Word.ExtractArrange` | src/include/types.h:53-61 | extracting what was arranged in a field gives it back, cut to the field's width |
| `Word.InPlaceIsArrangeExtract` | src/include/types.h:67-71 | keeping a field in place is extracting and arranging it again |
| `Word.ExtractOr` | src/include/types.h:53-61 | extraction distributes over OR |
| `Word.AndNotHigh` | src/kernel/mmu.c:424-429 | the complement of a field that reaches bit 31 keeps the offset bits below it |
| `Fields.PresentField` | src/include/types.h:53-78 | in an OR of arranged fields, a field no other part overlaps reads back its own value |
| `Fields.AbsentField` | src/include/types.h:53-78 | a field that no part touches reads as zero |
| `Descriptors.SectionMeaning` | src/kernel/mmu.c:160-182 | a section or supersection descriptor decodes to the requested unit, attributes and domain and, for every address of the unit, base plus offset; the bits that no field names are zero |
| `Descriptors.SectionDomain` | src/kernel/mmu.c:160-167 | a section's domain is the one requested; a super section has zeros in its place and below its base; bits 9 and 19 are zero |
| `Descriptors.RequestedAttributes` | src/include/mmu.h:146-155 | the bits of the request's flags: execute-never, not-global, shared, access flag, and from bit 4 on the domain |
| `Descriptors.PageMeaning` | src/kernel/mmu.c:256-280 | the same for small and large pages, in the domain of the entry that points to their table, which is 0 |
| `Descriptors.TableWordDecodes` | src/kernel/mmu.c:232-234 | a table entry decodes to its type and table address, with domain 0 and no other bit set |
| `PageTables.ShortcutAgrees` | src/kernel/mmu.c:434-441 | the static-table shortcut names the table that the entry's base field names |
| `PageTables.TablesDisjoint` | src/kernel/mmu.c:237-248 | two directory entries never name overlapping tables |
| `PageTables.SectionSlots` | src/kernel/mmu.c:147-158 | the addresses of a section unit are exactly those of its replicated directory entries |
| `PageTables.PageSlots` | src/kernel/mmu.c:205-254 | the addresses of a page unit are exactly those of its replicated table entries |
| `PageTables.SectionStep` | src/kernel/mmu.c:149-185 | writing one section unit maps exactly its addresses and keeps the table invariant |
| `PageTables.TableStep` | src/kernel/mmu.c:223-235 | hooking a fresh zeroed table changes no translation |
| `PageTables.PageStep` | src/kernel/mmu.c:250-283 | writing one page unit maps exactly its addresses and keeps the table invariant |
| `MapSpec.MapSectionStep` | src/kernel/mmu.c:149-185 | one loop round extends the mapped part of the range |
| `MapSpec.MapTableStep` | src/kernel/mmu.c:223-235 | the table round keeps the rest of the range free |
| `MapSpec.MapPageStep` | src/kernel/mmu.c:250-283 | one loop round extends the mapped part of the range |
| `MapSpec.SectionUnitFree` | src/kernel/mmu.c:156-158 | the asserted check of a section unit's directory entries holds iff all its addresses are free |
| `MapSpec.PageUnitFree` | src/kernel/mmu.c:212-218 | the asserted check of the directory entry fails only for a unit that is not free; behind a table, the check of the table entries holds iff all addresses of the unit are free |
| `Mmu.Mmu.constructor` | src/kernel/mmu.c:116-134 | takes over any tables that satisfy the invariant |
| `Mmu.Mmu.MapSections` | src/kernel/mmu.c:136-192 | the section loop maps the whole range iff it was free at the start, in the requested domain, else stops at the first unit that was not, with those before it mapped |
| `Mmu.Mmu.AddTable` | src/kernel/mmu.c:223-235 | an empty directory entry gets a fresh table |
| `Mmu.Mmu.MapPages` | src/kernel/mmu.c:194-290 | the page loop maps the whole range iff it was free at the start, else stops at the first unit that was not, with those before it mapped; one fresh table per empty directory entry |
| `Mmu.Mmu.Map` | src/kernel/mmu.c:292-324 | passes all its slot assertions iff the range was free; then every address of the range translates to base plus offset with the requested unit, permissions, memory type, flags and domain, and no other bit set; else it stops at the first unit that was not free, with exactly those before it mapped; every other address translates as before in any case |
| `Mmu.Mmu.VaToPa` | src/kernel/mmu.c:404-460 | the software walk returns the physical address of the translation, at all four units |
| `MapSpec.UnmapSectionStep` | src/kernel/mmu.c:352-366 | one loop round zeroes exactly the directory entries of its unit |
| `MapSpec.ZeroedIsUnmapped` | src/kernel/mmu.c:352-366 | zeroing the entries of a section range unmaps exactly the range and keeps the table invariant, iff it is clear of the entries of the static tables |
| `Mmu.Mmu.UnmapSections` | src/kernel/mmu.c:351-366 | zeroes exactly the entries of the range, whatever the range; the invariant stays iff it is clear of the static tables |
| `MapSpec.UnmapPageStep` | src/kernel/mmu.c:375-392 | zeroing one page unit unmaps exactly its addresses |
| `Mmu.Mmu.UnmapPages` | src/kernel/mmu.c:368-398 | unmaps the range, or stops exactly when some unit has no table behind it or the reused `pa` fails the overflow check |
| `Mmu.Mmu.Unmap` | src/kernel/mmu.c:326-402 | sections: zeroes exactly the entries of the range; pages: passes its assertions iff each unit has a table and the check on `pa` holds at every unit; then exactly the range is unmapped, and in any case no other address is, as long as the invariant stays, which is said exactly |
| `MapSpec.PaCheckDynamic` | src/kernel/mmu.c:368-386 | outside the static window the check holds iff the base of the table of each unit but the last, plus the unit size, is not below the request's physical start |
| `MapSpec.PaCheckStatic` | src/kernel/mmu.c:368-386 | inside the static window the check always holds |
| `MapSpec.PaCheckGeneral` | src/kernel/mmu.c:368-386 | for any request: the check holds iff at every unit that has some unit before it outside the window, the table of the last such unit, plus the distance from there, is not below the request |
| `MapSpec.PaCheckCanFail` | src/kernel/mmu.c:371-384 | two pages at the end of the slab area, behind a table at physical 9MB: a legal request, in tables that satisfy the invariant, for which the check fails |
| `MapSpec.NinthMbTablesOk` | src/kernel/mmu.c:371-384 | such tables exist |
| `MapSpec.MapThenUnmap` | src/kernel/mmu.c:292-402 | unmapping what was mapped on a free range restores every translation |
| `MapSpec.UnmapKeepsCoherence` | src/kernel/mmu.c:352-398 | replicated entries stay in agreement after unmapping iff the range cuts no mapped unit |
| `MapSpec.SmallerUnitsAreWhole` | src/kernel/mmu.c:352-398 | it cuts none if it is unmapped by a unit at least as large as those mapped in it |
| `MapSpec.MapKeepsCoherence` | src/kernel/mmu.c:184-185 | replicated entries stay in agreement: all addresses of a mapped unit see one unit and one offset |
| `Boot.SectMeaning` | src/boot/boot.c:100-117 | a boot page descriptor decodes to va - KMODE_VA with the section's rwx permission |
| `Boot.IdentityMeaning` | src/boot/boot.c:71-79 | an identity section translates every address to itself, read-write, executable, accessed and write-back, in domain 0 |
| `Boot.PreparedInv` | src/boot/boot.c:58-89 | the zeroed tables with identity and window entries satisfy the table invariant |
| `Boot.MapSection` | src/boot/boot.c:91-119 | the page loop maps one section |
| `Boot.BootMap` | src/boot/boot.c:48-120 | the invariant holds, the first 4MB are identity mapped by sections of exactly those attributes, and above them translations are exactly those of the sections |
| `Boot.MappingOfSection` | src/boot/boot.c:35-42 | for sections without a common page, each page is translated with its own section's permission: executable iff bit 0 of it is set, writable iff bit 1 is, and accessed write-back memory in domain 0 |
| `Boot.BootMmu` | src/kernel/mmu.c:116-134 | from boot to the MMU code: its invariant holds for the tables that boot built; below 4MB nothing is translated, above exactly the sections; the tables are coherent |
| `Boot.BootedIsCoherent` | src/boot/boot.c:91-119 | at boot every mapped page is mapped whole |
| `Boot.RemoveIdentityMap` | src/kernel/mmu.c:128-130 | only the first 4MB lose their translation, and the invariant stays |
| `VmArea.FourWayIsOverlap` | src/kernel/vm.c:66-77 | for non-empty ranges the four comparisons hold iff the ranges share an address |
| `VmArea.FourWayOnEmptyRange` | src/kernel/vm.c:66-77 | for an empty range they hold exactly from start to end of the segment, though nothing is shared |
| `VmArea.Area.constructor` | src/kernel/vm.c:37-56 | the area starts with the nine slab pages at its end |
| `VmArea.Area.FindSeg` | src/kernel/vm.c:58-80 | finds a segment iff some segment overlaps the range |
| `VmArea.Area.FindFree` | src/kernel/vm.c:82-99 | the highest naturally aligned free block, none iff there is none |
| `VmArea.Area.Alloc` | src/kernel/vm.c:101-128 | each block is the highest free one at its turn, segments stay disjoint and in the area; stops only when no block is free |
| `VmArea.Area.Free` | src/kernel/vm.c:130-155 | removes exactly the segments that start at the given addresses, keeps the order of the others, zeroes the addresses found |
| `VmArea.AddSegment` | src/kernel/vm.c:115-120 | a segment over a free block keeps segments disjoint |
| `VmArea.KeepDisjoint` | src/kernel/vm.c:139-152 | removal keeps segments disjoint |
| `VmArea.FreeRestores` | src/kernel/vm.c:101-155 | freeing what was just allocated restores the list |
| `Lists.InitListHead` | src/kernel/list.c:21-24 | an empty list |
| `Lists.ListEmpty` | src/kernel/list.c:26-29 | empty iff the sequence is |
| `Lists.Rotate` | src/kernel/list.c:31-58 | a ring can be read from any of its nodes |
| `Lists.AddBetween` | src/kernel/list.c:31-39 | links a node between two neighbours of a ring |
| `Lists.ListAdd` | src/kernel/list.c:41-44 | prepends to the sequence |
| `Lists.ListAddTail` | src/kernel/list.c:46-49 | appends to the sequence |
| `Lists.ListDel` | src/kernel/list.c:51-58 | removes the element, wherever it is, without knowing the list's head |
| `Lists.ListDelHead` | src/kernel/list.c:60-67 | removes and returns the first element |
| `Scheduler.Scheduler.SchedulePreemptDisabled` | src/kernel/schedc.c:113-200 | refines the machine's schedule step; none of its assertions fails |
| `Scheduler.Scheduler.WakeUp` | src/kernel/schedc.c:214-248 | refines the wake-all step, in order, and raises the scheduler interrupt iff idle runs and someone was queued |
| `Scheduler.Scheduler.ThreadCreate` | src/kernel/schedc.c:265-290 | a fresh thread is ready, at the back |
| `Scheduler.Scheduler.WaitEnqueue` | src/include/sched.h:109-116 | the current thread, still current, waits at the back of a queue |
| `Scheduler.Scheduler.LockAttempt` | src/kernel/schedc.c:309-325 | takes the mutex and returns holding it iff it is free, else queues as the last waiter |
| `Scheduler.Scheduler.MutexUnlock` | src/kernel/schedc.c:326-333 | frees the mutex, wakes all its waiters in order, and leaves its queue empty |
| `SchedSpec.NextInv` | src/kernel/schedc.c:113-333 | every step keeps the partition of threads and mutex exclusion |
| `SchedSpec.RunInv` | src/kernel/schedc.c:113-333 | over every interleaving of create, schedule, wait, wake, lock and unlock |
| `SchedSpec.SchedulerSafety` | src/kernel/schedc.c:113-333 | in every run from boot: each thread in exactly one place with the tag of that place, idle current or ready, one holder per mutex, waiters only for a held one |
| `SchedSpec.Partition` | src/kernel/schedc.c:113-248 | each thread is current, ready, or on one wait queue; only the current one can also be queued, exactly while it is tagged waiting |
| `SchedSpec.AssertionsHold` | src/kernel/schedc.c:126-161 | the queue and state assertions of the scheduler and of wake-up |
| `SchedSpec.ScheduleDispatch` | src/kernel/schedc.c:126-184 | the first ready thread other than idle becomes current, and a running one goes to the back |
| `SchedSpec.IdleOnlyWhenAlone` | src/kernel/schedc.c:137-175 | idle is dispatched iff nobody else is ready and the current thread does not run on |
| `SchedSpec.BoundedWaiting` | src/kernel/schedc.c:126-184 | a ready thread with k others ahead is current right after the (k+1)-th call of the scheduler, whatever else happens, and at no moment before |
| `SchedSpec.MutexStep` | src/kernel/schedc.c:309-333 | at most one holder, and a non-empty mutex queue implies a locked mutex |
| `SchedSpec.HeldUntilReleased` | src/kernel/schedc.c:309-333 | the thread that takes a mutex holds it, over every run, until its own release |
| `SchedSpec.OneInside` | src/kernel/schedc.c:309-333 | in every run, between two successful attempts at one mutex, the thread that made the first has released it |
| `SchedSpec.ReleaseFrees` | src/kernel/schedc.c:326-333 | a release leaves the mutex free, nobody holding it, nobody queued for it, and other mutexes as they were |
| `SchedSpec.WaitsUntilWoken` | src/kernel/schedc.c:214-248 | over every run a queued thread stays on its queue, tagged accordingly, until a step wakes that queue |
| `SchedSpec.WokenAreReady` | src/kernel/schedc.c:214-248 | the step that wakes a queue empties it: its threads join the back of the ready queue in order, and a current one runs on; no other queue changes |
| `SchedSpec.WaiterIsLast` | src/kernel/schedc.c:312-316 | going to wait, or finding a mutex locked, makes the current thread the last of that queue and of no other |
| `SchedSpec.FreshIsLast` | src/kernel/schedc.c:271-289 | a created thread is the last of those that can run, so that bounded waiting applies to it |
| `TimerWheel.BitRol` | src/kernel/schedc.c:37-48 | the rotation moves bit i to i + c modulo 32, for c of 0 to 32 |
| `TimerWheel.BatchMaskSelects` | src/kernel/schedc.c:65-71 | the rotated mask has exactly the slots of the next t ticks, or all from 32 ticks on |
| `WheelSpec.SelectedIffCome` | src/kernel/schedc.c:65-82 | of a deadline within 32 ticks, the slot is selected by t ticks iff the deadline is at most now + t |
| `WheelSpec.TickSelects` | src/kernel/schedc.c:65-82 | in every invariant state a batch of any t ticks makes due exactly the timers whose deadline has come |
| `WheelSpec.NextInv` | src/kernel/schedc.c:50-83 | arming, ticking, collecting and draining keep: slot = deadline modulo 32, request bit iff slot non-empty, due iff the deadline has come, else at most 32 ticks ahead |
| `WheelSpec.WheelSafety` | src/kernel/schedc.c:339-421 | in every run from boot: each pending timer in the slot of its deadline only, due iff the deadline has come and else at most 32 ticks ahead, request bit iff slot non-empty; no timer's function is called twice |
| `WheelSpec.FiredOnce` | src/kernel/schedc.c:365-375 | draining a slot calls each of its timers once, and only timers that have not fired |
| `WheelSpec.TimerFate` | src/kernel/schedc.c:339-377 | over every run a pending timer is pending or has fired, never both, never before its deadline; once no slot is due it has fired iff its deadline has come |
| `WheelSpec.FiresAfterItsTicks` | src/kernel/schedc.c:411-421 | over every run from the step that arms it for t ticks: a timer is not called before t ticks have gone by, and once they have and no slot is due it has been called, once |
| `WheelSpec.ClockOf` | src/kernel/schedc.c:80-82 | over every run the clock moves by exactly the ticks reported |
| `WheelSpec.RunMonotone` | src/kernel/schedc.c:339-377 | time does not run back, and what has fired stays fired, at the same time |
| `TimerWheel.TimerWheel.TickSoft` | src/kernel/schedc.c:51-83 | refines the tick step on the 32-bit masks; the clock moves by the ticks reported |
| `TimerWheel.TimerWheel.Arm` | src/kernel/schedc.c:416-421 | refines the arm step: the timer's deadline is t ticks from now, and it is the last in the slot of that deadline |
| `TimerWheel.TimerWheel.Collect` | src/kernel/schedc.c:350-356 | refines the collect step |
| `TimerWheel.TimerWheel.Drain` | src/kernel/schedc.c:365-375 | refines the drain step; the slot's list is not empty, as asserted |
| `TimerWheel.TimerWheel.IrqTimer` | src/kernel/schedc.c:339-377 | with no tick in between, fires exactly the timers whose deadline has come |
| `IoQueue.IoQueue.ClaimNext` | src/kernel/ioreq.c:42-57 | claims the head iff none is claimed and the queue is not empty |
| `IoQueue.IoQueue.Submit` | src/kernel/ioreq.c:109-119 | refines the submit step: the request goes to the back, not done; the submitter claims it iff the queue was empty |
| `IoQueue.IoQueue.StartClaimed` | src/kernel/ioreq.c:121-122 | the submitter starts the request that its submission claimed, which is still the head |
| `IoQueue.IoQueue.DequeueSched` | src/kernel/ioreq.c:86-94 | unlinks the head and frees the device |
| `IoQueue.IoQueue.DoneSched` | src/kernel/ioreq.c:96-107 | marks the request done, wakes its waiters, starts the next |
| `IoQueue.IoQueue.CompleteHead` | src/kernel/ioreq.c:86-107 | the two calls of a completing driver refine the complete step; what they unlink and mark done is the request that the device was given |
| `IoQueue.IoQueue.WaitEnter` | src/include/sched.h:118-127 | the check-and-enqueue part of a wait: over iff the request is done, else the caller is the last on its completion queue |
| `IoQueue.IoQueue.WaitCheck` | src/include/sched.h:128-131 | the wait ends iff the request is done; then the caller runs and is on no queue |
| `IoSpec.NextIoInv` | src/kernel/ioreq.c:42-130 | every step keeps: busy is 0 or 1, the request that was claimed or started is the head, histories in order, waiters on their completion queue |
| `IoSpec.RunIoInv` | src/kernel/ioreq.c:42-130 | over every interleaving with every step of the scheduler |
| `IoSpec.IoSafety` | src/kernel/ioreq.c:42-130 | in every run from boot: busy is 0 or 1; with a non-empty queue the one request claimed or at the device is its head; starts and completions follow the submission order one at a time, done iff off the queue, nobody left waiting for a done request |
| `IoSpec.CompletesTheStarted` | src/kernel/ioreq.c:86-107 | a completion finishes the request that was started, and starts the next head |
| `IoSpec.SubmittedIsLast` | src/kernel/ioreq.c:109-122 | a submitted request is the last in the queue, not done, and claimed at once iff the queue was empty |
| `IoSpec.CompletesInTurn` | src/kernel/ioreq.c:86-122 | a request with p others ahead is done right after the (p+1)-th completion of any run, and at no moment before |
| `IoSpec.NoLostWakeup` | src/include/sched.h:118-131 | once a request is done nobody is left on its completion queue, and its waiters run or are ready |
| `IoSpec.WaitReturns` | src/kernel/ioreq.c:124-130 | the wait returns only when done, with the thread running and off every queue |
| `IoSpec.UnfinishedWaiterIsQueued` | src/include/sched.h:118-131 | until then the waiter is on the queue that the completion wakes |
| `Interrupts.NextInv` | src/kernel/excptc.c:44-86 | every single read or write of a counter or flag, with interrupts arriving between any two, keeps the account of who raised what |
| `Interrupts.RunInv` | src/kernel/excptc.c:44-86 | over every run of interrupts, accesses, handler returns, thread switches and creations |
| `Interrupts.SoftNonReentrancy` | src/kernel/excptc.c:53-86 | in every run at most one activation of the soft handlers exists, on the current thread, and the irq context implies a raised soft count |
| `Interrupts.SwitchIsQuiet` | src/kernel/irq.c:34-67 | no thread switch happens while soft handlers are active |
| `Interrupts.ReturnRestores` | src/kernel/excptc.c:44-86 | a returning interrupt leaves both counts and the flag of the thread as it found them |
| `Interrupts.HandlersInOrder` | src/kernel/excptc.c:53-86 | an interrupt that finds the soft count 0 runs, access by access, the soft handlers, then the scheduler's iff the sched count was 0 too, then the soft handlers again, and returns to what it found |
| `Interrupts.NoHandlers` | src/kernel/excptc.c:53-61 | one that finds it raised runs none, and returns to what it found |
| `Interrupts.DisableRaises` | src/include/sched.h:65-91 | a disable raises its own count by one and no other |
| `Interrupts.SoftEnableLowers` | src/include/sched.h:72-84 | an enable runs the soft handlers, the count still raised, iff the count was 1 outside the irq context, and then lowers the count by one |
| `Interrupts.SchedEnableLowers` | src/include/sched.h:93-104 | the same for the scheduler's handlers |
| `Interrupts.AlwaysProgress` | src/include/sched.h:72-104 | no activation waits for handlers that are not there |
| `InterruptEntry.Processor.ExcptIrq` | src/kernel/excptc.c:44-86 | with any tree of nested arrivals: counters, flag and activity restored; the handlers entered are exactly soft, scheduler, soft if both counts were 0, soft, soft if only the soft count was, and none else |
| `InterruptEntry.Processor.IrqSoftEnable` | src/include/sched.h:72-84 | lowers the count, running the soft handlers first iff it was 1 |
| `InterruptEntry.Processor.IrqSchedEnable` | src/include/sched.h:93-104 | lowers the count, running the scheduler's handlers first iff it was 1 outside the irq context; exactly which handlers run, in order, for the interrupts that arrive meanwhile |
| `InterruptEntry.Processor.IrqSoft` | src/kernel/irq.c:72-92 | is entered only when no soft handler is active |
| `InterruptEntry.Pending.Raise` | src/kernel/irq.c:155-159 | sets exactly one pending bit |
| `InterruptEntry.Pending.DispatchRound` | src/kernel/irq.c:78-90 | one round empties the mask and calls the handlers of the pending lines, in ascending order |
| `InterruptEntry.ServedLines` | src/kernel/irq.c:87-89 | those are exactly the pending lines that have a handler, each once |
| `InterruptEntry.Pending.DispatchLoop` | src/kernel/irq.c:73-92 | the whole loop, for any lines raised while it runs: ends with an empty mask, having served round after round what was pending and what was raised |
| `InterruptEntry.EveryRaiseServed` | src/kernel/irq.c:78-90 | a line raised in a round of the loop is served, as long as no round before it found the mask empty |
| `FullPages.BootIsReady` | src/kernel/mmu.c:116-134 | after boot no page of the area is translated |
| `FullPages.MappedOne` | src/kernel/slub.c:123-140 | mapping one free page leaves every other page, in use, stale or free, as it was |
| `FullPages.SegmentTaken` | src/kernel/vm.c:115-120 | the range that an allocation takes is that of no page in use, nor of the initial slabs |
| `FullPages.FrameIsNew` | src/kernel/pm.c:149-154 | the frame that it takes is that of no live block |
| `FullPages.FullPages.Alloc` | src/kernel/slub.c:276-320 | the highest free address gets the lowest free frame; which assertion stops it otherwise: no address, no frame, or, exactly if that address is one freed before, an address that is still mapped |
| `FullPages.FullPages.Free` | src/kernel/slub.c:404-419 | frame and address are given back; the translation stays |
| `FullPages.FullPages.PageIsPrivate` | src/kernel/slub.c:276-320 | a page in use is translated to its frame, which no other live or reserved block has, and no other page in use; it is execute-never, write-back, for the supervisor only, in domain 0 |
| `FullPages.FullPages.AllocFreeAlloc` | src/kernel/slub.c:276-419 | an allocation right after the release of the page allocated last always stops at the mapping's assertion |
| `SlabSpec.ObjectsApart` | src/kernel/slub.c:355-356 | distinct objects of a page share no word |
| `SlabSpec.VisitsChain` | src/kernel/slub.c:183-185 | following the links from `free` is reading a sequence |
| `SlabSpec.Accounting` | src/kernel/slub.c:165-181 | free, live and reserved objects add up to the page |
| `SlabSpec.PopThreaded` | src/kernel/slub.c:352-366 | allocation takes the head of a sound free list, leaves a sound one, and the object was not live |
| `SlabSpec.PushThreaded` | src/kernel/slub.c:446-453 | freeing a live object puts it at the head of a sound free list; the count stays within the page |
| `SlabSpec.StoreThreaded` | src/kernel/slub.c:356-358 | whatever owners write in their objects, the free list stays sound |
| `SlabSpec.PushUndoesPop` | src/kernel/slub.c:352-450 | freeing what was just allocated restores page and header bit for bit |
| `SlabSpec.PopUndoesPush` | src/kernel/slub.c:352-450 | an allocation after a free hands out the same object, its first word zeroed |
| `SlabSpec.SetUpIsSound` | src/kernel/slub.c:168-185 | a slab as set up has a sound free list and no live object |
| `SlubSpec.SettledOk` | src/kernel/slub.c:360-372 | moving a slab when its count reaches 0, 1 or n keeps every slab on the list its count names, and on no other |
| `SlubSpec.MovesToFront` | src/kernel/slub.c:360-372 | a slab that changes lists goes to the front of the new one, and no other slab moves |
| `SlubSpec.NoCandidateNoFree` | src/kernel/slub.c:332-345 | the search finds no slab iff no slab has a free object |
| `SlubSpec.PartlyUsedFirst` | src/kernel/slub.c:332-350 | an allocation uses a wholly free slab only if none is partly used, and a new one only if no slab has a free object |
| `SlubSpec.HeadersAreKept` | src/kernel/slub.c:168-174 | over every run objects 0 to 8 of a 16-byte slab are never handed out |
| `SlubSpec.NextInv` | src/kernel/slub.c:322-466 | allocation, release and use keep the invariant, and an allocation returns no live object |
| `SlubSpec.SlabSafety` | src/kernel/slub.c:322-466 | over every run: sound free lists, exact accounts, right lists, and the objects handed out are exactly those off the free lists |
| `SlubSpec.KmallocReturnsNoLiveObject` | src/kernel/slub.c:352-358 | in every reachable state |
| `SlubSpec.LiveObjectsKeepTheirWords` | src/kernel/slub.c:352-450 | no step but a store to it changes a word of an object that stays live |
| `Slub.WriteLinks` | src/kernel/slub.c:183-185 | the set-up loop threads the objects |
| `Slub.Subpages.SetUpSlab` | src/kernel/slub.c:142-186 | a new slab goes to the tail of its list, nine objects reserved in the 16-byte class |
| `Slub.Subpages.Pop` | src/kernel/slub.c:352-366 | takes the object `free` names |
| `Slub.Subpages.Take` | src/kernel/slub.c:332-372 | refines allocation on pages and headers in place |
| `Slub.Subpages.Kmalloc` | src/kernel/slub.c:322-383 | the same, growing the cache only if no slab has a free object |
| `Slub.Subpages.Kfree` | src/kernel/slub.c:421-466 | refines release, from the byte offset of the object |
| `Slub.KmallocClass` | src/kernel/slub.c:385-402 | the smallest class that fits; nothing for size 0, a page up to 4096, a failed assertion above |

## Left out

- Device drivers, the framebuffer, the boot assembly, context switching, caches, the TLB and barriers: hardware.
- Concurrent `mmu_map`: the lock is dropped around the allocation of a table and the entry is not read again (`src/kernel/mmu.c:223-234`); the model is sequential.
- `mmu_slub_alloc` and `mmu_slub_pa_to_va`: a pool of fresh 1KB tables, reached by physical address in one array of words; `mmu_slub_free`, which goes to the general 1KB cache, is not part of this model.
- Mmu.Mmu.Map: the assertions on the request itself (alignment, known memory type, no wrap-around) are required, not modelled as outcomes.
- FullPages.FullPages.Alloc: the header object, the page record, and zeroing the page are left out; the caller provides a fresh table.
- FullPages.FullPages.Free: finding the page through its record and freeing the header are left out.
- Interrupts.NextInv: interrupts may also arrive where the code has them masked, so the model has more runs than the code.
- InterruptEntry.Processor.ExcptIrq: nested interrupts arrive only at the places listed in `Arrivals`; handlers do not disable or switch threads there (module `Interrupts` covers both).
- InterruptEntry.Pending.DispatchLoop: raises stop at some point; else the loop need not end. Losslessness of the scheduler's own mask, which is read and cleared with interrupts enabled, is not claimed.
- InterruptEntry.Processor.IrqSoft: the dispatch of pending lines is in class `Pending`; here a run of the handlers is one step.
- IoQueue.IoQueue.DoneSched: synchronous requests only; work queues and asynchronous completion (`src/kernel/work.c`), and dispatch on the request type, are left out.
- WheelSpec.TimerFate: claims the firing of a timer, not the wake-up of its sleeper, since `msleep` waits without a condition. The conversion from milliseconds to ticks is left out.
- Slub.Subpages.SetUpSlab: the page record and the counter of free 16-byte objects are left out.
- Slub.Subpages.Kmalloc: a new slab is handed in by the caller; where header and page come from, the refill of the 16-byte class, and its counter are left out.
- Slub.Subpages.Kfree: takes slab and cache from the caller; finding them through the page record (`src/kernel/slub.c:468-496`) is left out.
- SlabSpec.StoreThreaded: states that owners write only inside their own objects; nothing is said of others.
- VmArea.Area.Free: reads the segment after the one it unlinks from the unlinked node, whose memory has been released; the model lets the traversal go on.
- Lists in the other modules are sequences; module `Lists` has the links, and aliasing between lists is not carried over.
- Quota accounting in `ticks`, whose signedness depends on the target.
- `list_add_sorted`, division, strings and number printing: unused or easy.
- The page records written for the kernel image at boot (`src/kernel/pm.c:122-136`), and `pm_ram_get_page`.
- Locks around the allocators: each call is taken as atomic.
