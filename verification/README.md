# papaya, modelled in Dafny

papaya is a small x86 kernel with a vi-like text library (`lsh/vi.c`), a dynamic linker
(`cmd/ld.c`) and a copy of Lua 5.3. This project models the parts of it that change linked
structures, arrays and counters in place, in the form the source has (classes with mutable
fields, arrays, loops), and proves what those parts are for.

## What is modelled

- **Page allocator** (`BuddyBlocks`, `BuddyZone`, `Powers`): the zone's page descriptors, free
  lists and counters. In every reachable state free and outstanding blocks tile the zone, the
  free lists hold exactly the maximal aligned free runs, and an allocation fails just when no
  aligned run of that order is free. The free blocks are therefore a function of the
  outstanding ones: freeing everything, in any order, gives back what initialisation built.
- **Kernel heap** (`HeapGaps`, `Heap`): the address-ordered first-fit list, as 32-bit words in a
  memory where a store destroys what it overlaps. Blocks and chunks tile the heap, no two free
  blocks touch, the free list is a function of the chunks in use, and with none in use block0 is
  alone with its first size.
- **Slab allocator** (`Slab`, `SlabLayout`): index chains, the three queues, the counters, and the
  layout computation with its 32-bit wrap-around.
- **Lua jump lists** (`JumpLists`, `JumpPatching`, `JumpMeaning`): lists threaded through emitted jumps
  refine a map from labels to the jumps waiting for them; every settled jump goes where it was sent.
  `JumpMeaning` executes tests and jumps as the virtual machine does (lsh/lua/src/lvm.c:1080-1129).
- **Lua open upvalues** (`Upvalues`).
- **Scheduler** (`SchedQueues`, `Scheduler`): the three lists, slices, timers, wait queues, and the
  budget that bounds the user ticks of an epoch. Every process but the idle one is in exactly one list
  (`Scheduler.Sched.InOneQueue`, from the invariant `Valid()` that every step keeps).
- **Pipe** (`Pipe`): the 4096-byte ring between one reader and one writer refines an unbounded FIFO.
- **Memory areas** (`VmaRing`): the circular list of a process, always the stable sort of what went in.
- **Copy-on-write pages** (`CowCounts`, `CowPages`): forking an address space area by area, with the
  kernel's page tables shared and the user's own; resolving and releasing addresses, the write fault.
  Counts stay exact over any run, and a store to a page that is no shared area's is seen at one address only.
- **Dynamic linker** (`DynGraph`, `DynOrder`, `DynLinker`): the module table is the breadth-first
  closure of DT_NEEDED. It is compared with the order the System V gABI (chapter 5, "Shared Object
  Dependencies") gives from the executable alone.
- **Bottom halves** (`BottomHalf`): `do_bh` with interrupts arriving at every point where they are on.
- **Formatted printing** (`Numerals`, `Printf`).
- **Text buffer** (`FlatText`, `ArrayShift`, `Vi`): the cursor refines an index into one flat string,
  edits undo each other, and the parallel line arrays stay in step.

A method is specified by a function or predicate on the old and the new state; the laws are lemmas
about those functions or follow from the class invariant `Valid()`.

## Where code and comments disagree, or the expected law fails

The model follows the code.

- `LL_I_INCRE` is described as inserting behind equals; it inserts in front of them
  (src/include/linux/mylist.h:137, 148-207). `SchedQueues.InsertIncre` states the place.
- A cache with one object per slab puts an emptied slab on the partial queue: it goes to the fresh
  queue if and only if a slab has at least two objects (`Slab.Cache.Free`).
- The starting estimate of objects per slab divides by the size of `struct page` (24 bytes) instead
  of the object size (src/mm/slab.c:54-55), and the product of the two overflows an int from 65537
  bytes on. Among all positive object sizes the layout fits if and only if the size is at most 65536
  (`SlabLayout.LayoutFits`; `SlabLayout.TooLargeByOne` is the first size for which it does not); for
  any estimate it does if and only if the product stays in range (`SlabLayout.ObjnumIsMin`).
- `schedule_timeout(0)` sleeps for 429496730 ticks; the timeout is the least sufficient one if and
  only if the argument is positive (`Scheduler.TimeoutIsLeast`).
- `vi_percent` counts in `char`. Where there is a match it stops there if and only if brackets do not
  nest deeper than 256 up to it (`FlatText.MatchFoundIff`; `FlatText.DeepMatchMissed` is a text where
  it does not). Where there is none it stays if and only if the nesting depth never steps down to a
  multiple of 256 (`FlatText.NoMatchIff`; `FlatText.DeepMatchInvented` is a text where it moves).
- The linker stands in slot 0 and is searched before the executable. Where it needs nothing itself, the
  definition found is that of the executable's own order if and only if the linker does not define the
  name (`DynLinker.ExecutableFirst`; `DynLinker.LinkerShadows` is an environment where it differs).
  Whatever it needs, a name that nothing in its reach defines is found where the executable's own order
  finds it (`DynLinker.SameOutside`). Both orders are without `libc.so.6`, which the code skips.
- `vi_dd` leaves the slot behind the last line as it was, naming a block that is in use or freed, and
  `vi_set` writes to the slots it finds. For every k, `vi_set` shows every text of k lines if and only
  if the first k slots name different blocks, none of them freed (`Vi.TextBuffer.Set`,
  `Vi.TextBuffer.SetUnclean`). Every edit keeps slots so but `vi_dd`, after which just those of the
  lines left are (`Vi.TextBuffer.DD`). `Vi.SetAfterDD` is a run where the text is not shown.
- `%s` stops at a percent sign inside the string: it prints the string if and only if there is none and
  no NUL (`Printf.StringPrints`; `Printf.PercentStops` is a string where it does not). A whole format
  prints what it stands for under just that condition on every argument (`Printf.FormatPrints`).
- Reading a numeral and printing it again gives the same numeral if and only if it has no leading zero
  and its value is below 2^32 (`Numerals.DigitsOfVal`; `Numerals.WordReadsAsZero` is one that is not).

## Model

| member | source | states |
|---|---|---|
| BuddyBlocks.FreeIffMaximal | src/mmzone.c:61-166 | between operations a block is free just when it is a maximal aligned free run of its zone |
| BuddyBlocks.FreeDeterminedByLive | src/mmzone.c:61-166 | the free blocks depend on the outstanding blocks alone, not on the order of allocations and frees |
| BuddyBlocks.RunNeedsBlock | src/mmzone.c:121-146 | an aligned free run of 2^k pages exists just when a free block of order k or more does |
| BuddyBlocks.RunInOneBlock | src/mmzone.c:61-112 | without free buddies, an aligned covered run lies inside one block |
| BuddyBlocks.BuddyFacts | src/mmzone.c:61-112 | the xor buddy and the merged head are the two halves of one aligned block of the next order |
| BuddyBlocks.AbsorbBuddy | src/mmzone.c:61-112 | taking in a free buddy keeps the tiling, with the block in hand one order larger |
| BuddyBlocks.CleaveBlock | src/mmzone.c:151-166 | halving a block keeps the tiling, and only the new halves may be buddies |
| BuddyBlocks.Split | src/mmzone.c:151-166 | a block replaced by its halves still tiles the zone |
| BuddyBlocks.Merge | src/mmzone.c:61-112 | two buddies replaced by their parent still tile the zone |
| BuddyBlocks.PutBack | src/mmzone.c:61-112 | a block without a free buddy completes the canonical form when listed |
| BuddyBlocks.HandOut | src/mmzone.c:121-146 | a free block handed out was a free run; the rest stays canonical |
| BuddyZone.Zone.constructor | src/mmzone.c:14-56 | a zone of whole 256-page blocks starts valid with nothing outstanding, so fully coalesced |
| BuddyZone.Zone.Admit | src/mmzone.c:33-56 | one round of initialisation adds a 256-page block in use and touches one descriptor |
| BuddyZone.Zone.FillZone | src/mmzone.c:33-56 | the initialising loop ends with every page of the span managed and free |
| BuddyZone.Zone.MergeWithBuddy | src/mmzone.c:61-112 | a merge round takes the buddy off its list and keeps what the free lists will become |
| BuddyZone.Zone.Settle | src/mmzone.c:61-112 | the merged block goes to the front of its list; the zone is canonical again |
| BuddyZone.FreedInFront | src/mmzone.c:61-112 | the block the freed pages end up in heads its list, what was on that list follows: what is freed last goes out first |
| BuddyZone.Zone.FreePagesBulk | src/mmzone.c:61-112 | a returned block merges as far as it can; lists change exactly so, outstanding blocks do not |
| BuddyZone.Zone.BuddyTest | src/mmzone.c:114-120 | the descriptor test holds just for a free block of that order |
| BuddyZone.Zone.FreePages | src/mmzone.c:174-187 | one reference less; the last one returns the block, which, merged, goes in front of its list; every other descriptor in use is unchanged |
| BuddyZone.Zone.FirstList | src/mmzone.c:121-146 | the first non-empty list from the order up, or none |
| BuddyZone.Zone.Cleave | src/mmzone.c:151-166 | the first block of a list becomes two of the next lower order, upper half in front |
| BuddyZone.Zone.CleaveDown | src/mmzone.c:121-146 | halving down to the order leaves one half on every list between |
| BuddyZone.Zone.TakeFirst | src/mmzone.c:121-146 | the block handed out gets count 1 and leaves its list |
| BuddyZone.Zone.EmptyListsNoRun | src/mmzone.c:121-146 | with no block of sufficient order there is no aligned free run of that size |
| BuddyZone.Zone.RmQueue | src/mmzone.c:121-146 | allocation fails just when no aligned free run of the order exists; else it returns one, and says which |
| BuddyZone.Zone.GetPage | src/include/old/mmzone.h:135-139 | one reference more, nothing else |
| HeapGaps.GapsDetermined | src/pmm.c:20-61 | two free lists over the same chunks are equal, whatever came before |
| HeapGaps.AllFreed | src/pmm.c:34-61 | with no chunk left block0 is alone with its first size |
| HeapGaps.AllocThenFree | src/pmm.c:20-61 | freeing the chunk just allocated restores the free list exactly |
| HeapGaps.Carve | src/pmm.c:20-33 | a chunk cut from the tail of a block keeps heap tiled and ordered |
| HeapGaps.Fuse | src/pmm.c:34-61 | joining a freed chunk with its neighbours keeps heap tiled, ordered and without touching blocks |
| Heap.KernelHeap.constructor | src/pmm.c:9-11 | the heap starts as one block |
| Heap.KernelHeap.FindFit | src/pmm.c:20-25 | the search stops at the first block with room, or at none |
| Heap.KernelHeap.CarveTail | src/pmm.c:26-29 | the chunk is the tail of the block found |
| Heap.KernelHeap.Kmalloc | src/pmm.c:20-33 | the chunk is the tail of the first block with room, which shrinks by it; fails just when no block has room; too small requests return 0 and change nothing; no client's data changes |
| Heap.KernelHeap.FindBefore | src/pmm.c:38-39 | the last free block in front of the chunk |
| Heap.KernelHeap.Extend | src/pmm.c:40-47 | the left neighbour grows, over the next block too if it now touches that |
| Heap.KernelHeap.Insert | src/pmm.c:48-60 | without one a new header is linked in, joined with a touching next block |
| Heap.KernelHeap.DelNode | src/pmm.c:62-67 | unlinking keeps the other headers, the chunks and every word outside headers |
| Heap.KernelHeap.InsertNode | src/pmm.c:55-59 | linking writes a consistent doubly linked header between its neighbours |
| Heap.KernelHeap.Kfree | src/pmm.c:34-61 | the chunk is gone and the heap valid, which fixes the whole free list; no other client's data changes |
| Heap.KernelHeap.ClientStore | src/pmm.c:29-33 | a store anywhere in a held chunk spoils neither list nor sizes |
| Slab.Cache.constructor | src/mm/slab.c:39-69 | a new cache has no slab and, its count being zero, no free object |
| Slab.Cache.Grow | src/mm/slab.c:93-116 | a new slab, all its objects chained once, heads the fresh queue |
| Slab.Cache.AllocOne | src/mm/slab.c:118-125 | the object taken heads its slab's chain, was not in use, and lies as many sizes behind the slab's first object as its index says |
| Slab.Cache.PickSlab | src/mm/slab.c:127-137 | the slab used is the first partial, else the first fresh, else a new one; the queues afterwards, and what a new slab adds to the count |
| Slab.Cache.Alloc | src/mm/slab.c:127-143 | one object more in use, never one that was: the head of its slab's chain; a slab used out goes to the front of the used-out queue, the others stay in their order; chains and count stay right |
| Slab.Cache.FreeOne | src/mm/slab.c:156-160 | the object heads its slab's chain again |
| Slab.Cache.RequeueFreed | src/mm/slab.c:171-179 | the slab moves to the queue its use demands; an emptied one to fresh iff it has two objects or more |
| Slab.Cache.Free | src/mm/slab.c:162-180 | exactly that object is no longer in use, found from its address alone; it heads its slab's chain, and the slab is at the front of the queue it moves to |
| Slab.Cache.FreeThenAlloc | src/mm/slab.c:127-180 | an object of a used-out slab, freed, is what the next allocation hands out |
| Slab.Cache.FindObject | src/mm/slab.c:162-168 | page and division recover slab and index; every object lies behind header and index array |
| Slab.Cache.ObjectsApart | src/mm/slab.c:93-143 | no two objects in use overlap |
| Slab.FreshChain | src/mm/slab.c:100-104 | the initial index array chains every object once |
| Slab.ChainPush | src/mm/slab.c:156-160 | pushing a free index keeps the chain acyclic and its order |
| SlabLayout.Ceil2nIsLeast | src/include/linux/kit.h:8-42 | rounding up gives the least power of two that suffices |
| SlabLayout.ObjnumIsMin | src/mm/slab.c:54-69 | for any estimate, objnum is the minimum of it and what fits behind the header, and fits, if and only if the estimate's objects overlap the slab by no more than 2^31 bytes |
| SlabLayout.LayoutFits | src/mm/slab.c:39-69 | of all positive sizes with a page count, header, index array and objects fit the pages if and only if the size is at most 65536; then there are at least seven, and the pages are the least power of two that holds eight |
| SlabLayout.TooLargeByOne | src/mm/slab.c:39-69 | 65537 bytes: 43690 objects in 256 pages, which do not fit |
| JumpLists.ListAppend | lsh/lua/src/lcode.c:116-127 | linking the last jump to another list gives the one followed by the other |
| JumpLists.ListUnique | lsh/lua/src/lcode.c:90-96 | a head threads one list only |
| JumpLists.ListDistinct | lsh/lua/src/lcode.c:90-96 | a finite list has no jump twice |
| JumpPatching.FuncState.constructor | lsh/lua/src/lparser.c:527-534 | an empty function has no label and nothing pending |
| JumpPatching.FuncState.FixJump | lsh/lua/src/lcode.c:103-110 | one jump gets its distance if that lies within 131071 either way, else nothing changes |
| JumpPatching.FuncState.PatchTestReg | lsh/lua/src/lcode.c:179-207 | a TESTSET controlling the jump gets its register or becomes a TEST, else nothing changes |
| JumpPatching.FuncState.PatchListAux | lsh/lua/src/lcode.c:224-234 | exactly the listed jumps and their tests change: those behind a TESTSET lead to vtarget, the others to dtarget |
| JumpPatching.FuncState.Concat | lsh/lua/src/lcode.c:116-127 | the result lists the first then the second; one instruction changes |
| JumpPatching.FuncState.ConcatLabels | lsh/lua/src/lcode.c:116-127 | one label takes over the other's jumps, all other labels and settled jumps keep theirs; fails just when the first list's last jump cannot reach the second's head |
| JumpPatching.FuncState.Resolve | lsh/lua/src/lcode.c:224-234 | a label's jumps are settled, those behind a TESTSET at vtarget, the others at dtarget; everybody else's are untouched |
| JumpPatching.FuncState.Discharge | lsh/lua/src/lcode.c:242-245 | jumps pending to here are settled on the next position |
| JumpPatching.FuncState.Emit | lsh/lua/src/lcode.c:293-305 | the instruction is appended and every pending jump goes to it |
| JumpPatching.FuncState.PatchToHere | lsh/lua/src/lcode.c:252-255 | a label's jumps join those pending to here; fails just when the last pending one cannot reach them |
| JumpPatching.FuncState.PatchList | lsh/lua/src/lcode.c:263-270 | to here they wait, to an earlier place they are settled on it; fails just when a distance does not fit |
| JumpPatching.FuncState.Jump | lsh/lua/src/lcode.c:136-143 | the new jump's label takes the pending jumps along; fails just when it cannot reach them |
| JumpPatching.AfterPatch | lsh/lua/src/lcode.c:224-234 | patched jumps reach their targets and settled ones still reach theirs |
| JumpPatching.PatchedLands | lsh/lua/src/lcode.c:224-234 | a patched list in numbers: the place each jump leads to is vtarget behind a TESTSET and dtarget else |
| JumpMeaning.ValueTestRuns | lsh/lua/src/lcode.c:179-234 | executing a patched value test: it skips its jump as before, or goes on at vtarget with the tested value in the register |
| JumpMeaning.OtherJumpRuns | lsh/lua/src/lcode.c:224-234 | executing any other patched jump: on to dtarget, by the test in front of it as before |
| JumpMeaning.RestRuns | lsh/lua/src/lcode.c:224-234 | every other instruction is the same |
| Upvalues.LuaState.Link | lsh/lua/src/lfunc.c:68-74 | a new open upvalue is linked in where its level belongs |
| Upvalues.LuaState.FindUpval | lsh/lua/src/lfunc.c:57-80 | the one open upvalue of the level, new only if there was none; the list stays strictly descending |
| Upvalues.LuaState.CloseFirst | lsh/lua/src/lfunc.c:87-94 | the first upvalue leaves the list and keeps the value it showed |
| Upvalues.LuaState.Close | lsh/lua/src/lfunc.c:83-96 | exactly the upvalues at or above the level close, and every referenced one reads as before |
| Upvalues.ClosedReadsSame | lsh/lua/src/lfunc.c:83-96 | a referenced upvalue shows its stack slot's value, closed or still open |
| SchedQueues.InsertIncre | src/include/linux/mylist.h:148-207 | the process goes in front of the first one not below it, the others keep their order |
| SchedQueues.InsertedSorted | src/include/linux/mylist.h:148-207 | an ordered list stays ordered and without repetition |
| SchedQueues.LastComesFirst | src/include/linux/mylist.h:148-207 | among equals the one inserted last stands first |
| Scheduler.Sched.constructor | src/kernel.c:115-127 | only the idle process, running and on no list |
| Scheduler.Sched.CreateProcess | src/proc.c:50-55 | a process with a full slice joins the active list in its place, the budget grows by it |
| Scheduler.Sched.ActiveSleep | src/schedule.c:16-25 | from active to its place among the sleepers, with its message |
| Scheduler.Sched.SleepActive | src/schedule.c:36-45 | from the sleepers to its place in active |
| Scheduler.Sched.UserTick | src/schedule.c:27-34 | the running process pays one tick and expires with its last |
| Scheduler.Sched.TimerPass | src/schedule.c:56-103 | every sleeper's timer counts down once; exactly those that reach zero wake, and a waker asks for a schedule |
| Scheduler.Sched.DoTimer | src/schedule.c:56-103 | a user tick uses one unit of the epoch's budget, a kernel tick none; who pays, wakes and expires, and nobody else; a schedule is asked for just when someone wakes or expires |
| Scheduler.Sched.ClockTick | src/schedule.c:56-103 | the same in numbers: a timer of 1 wakes, a timer of n counts down to n - 1, no other sleeper moves; the running process pays one unit in user mode and expires with its last |
| Scheduler.Sched.Exchange | src/schedule.c:109-145 | a new epoch starts with full slices when the old one's budget is used up to what sleepers keep; every expired process is active with its full slice |
| Scheduler.Sched.Schedule | src/schedule.c:109-145 | the choice is the first active process, of least prio, or the idle one; exactly the expired processes are refilled, at an exchange only |
| Scheduler.Sched.KpSleep | src/schedule.c:217-223 | the caller sleeps with its message; the other lists, the slices and who runs next are as after a schedule without it |
| Scheduler.Sched.ScheduleTimeout | src/schedule.c:207-212 | the same with a timer of the ticks returned |
| Scheduler.Sched.SleepThrough | src/schedule.c:56-145 | a timer of n sleeps through any run of ticks, schedules and other processes' timeouts with fewer than n ticks in it |
| Scheduler.Sched.TimeoutRun | src/schedule.c:56-212 | a process for which schedule_timeout returned s is among the sleepers until the s-th tick and active after it |
| Scheduler.Sched.SleepOn | src/schedule.c:217-239 | the caller heads the wait queue, all of which sleeps with no timer; every other wait queue is as it was |
| Scheduler.Sched.WakeUp | src/schedule.c:225-231 | all of a wait queue, and no one else, becomes active; needs only what sleep_on left, which ticks and schedules keep |
| Scheduler.Sched.InOneQueue | src/schedule.c:16-145 | every process but the idle one has exactly one place in the three lists together, the idle one none |
| Scheduler.Sched.EpochBound | src/schedule.c:56-145 | user ticks of an epoch never exceed its budget, and use all of it that no sleeper has |
| Scheduler.TimeoutIsLeast | src/schedule.c:207-212 | the ticks are the least that cover the milliseconds, if and only if those are not zero |
| Pipe.PipeInode.constructor | src/fs/pipe.cc:153-181 | an empty ring and nobody asleep |
| Pipe.PipeInode.CopyOut | src/fs/pipe.cc:51-96 | the copying loop of read, across the end of the ring |
| Pipe.PipeInode.CopyIn | src/fs/pipe.cc:98-151 | the copying loop of write appends behind what is there |
| Pipe.PipeInode.ReadStep | src/fs/pipe.cc:51-96 | read takes the oldest bytes, sleeps, fails or ends, and wakes the other side |
| Pipe.PipeInode.WriteStep | src/fs/pipe.cc:98-151 | write appends what fits, sleeps or fails, and wakes the other side |
| Pipe.PipeInode.Fifo | src/fs/pipe.cc:51-151 | bytes read are a prefix of bytes written, the ring holds the rest, both sides never sleep together |
| VmaRing.Mm.constructor | src/fs/exec.c:12-24 | the ring of a new process is its stack area alone |
| VmaRing.Mm.InsertVmArea | src/mm/mmap.c:155-171 | a well-formed ring with the area before the first that starts later, at the root or the tail too |
| VmaRing.Mm.Link | src/mm/mmap.c:166-170 | the five assignments join the area into the circle |
| VmaRing.Mm.FindVma | src/mm/mmap.c:99-102 | the first area that ends above the address, or none does |
| VmaRing.Mm.FindIntersection | src/include/linux/mm.h:114-124 | the lowest area meeting the range, found just when some area neither ends before it nor starts behind it |
| VmaRing.Mm.VmAreaExpand | src/mm/mmap.c:219-227 | the area grows just when no area that ends behind it starts before the new end, and areas stay apart |
| VmaRing.AnyRunSorts | src/mm/mmap.c:155-171 | after any run of insertions the ring is the stable sort by start of all that went in |
| VmaRing.SortIsUnique | src/mm/mmap.c:155-171 | there is only one such list |
| VmaRing.PlacedApart | src/mm/mmap.c:155-171 | a new area that meets no other keeps all of them apart |
| CowCounts.StoreIsPrivate | src/kernel/fork.c:87-97 | a writable page that is no shared area's is mapped at no other address of any space |
| CowCounts.CloneMaps | src/kernel/fork.c:78-112 | the child has the parent's mapping on every page, both read-only if private and writable, nothing else changes |
| CowCounts.CloneCounts | src/kernel/fork.c:95-97 | each page is counted once more per page of the range that maps it |
| CowCounts.RangeClonedExact | src/kernel/fork.c:61-118 | cloning any area, shared ones too, keeps all counts exact |
| CowCounts.RangeClonedSound | src/kernel/fork.c:61-118 | cloning any area keeps all counts exact and leaves no page writable in two places but those of shared areas |
| CowCounts.ForkMaps | src/kernel/fork.c:120-133 | after a fork the child maps on every copied page what the parent maps, and nothing else; the parent loses the right to write just where copy-on-write needs it |
| CowCounts.ForkFlags | src/kernel/fork.c:76-97 | the same by the flags: a page copied with a private writable area is writable in neither space, one copied with other areas only is as the parent had it in both |
| CowCounts.ForkElsewhere | src/kernel/fork.c:120-133 | a page in no area, or in uncopied ones only, is as it was in both |
| CowCounts.ForkExact | src/kernel/fork.c:120-151 | a fork keeps all counts exact, shared areas included |
| CowCounts.ForkSound | src/kernel/fork.c:120-151 | it also leaves no page writable in two places but those of shared areas |
| CowCounts.EmptySound | src/fs/exec.c:58-65 | before anything is mapped all counts are exact, so a run may start there |
| CowCounts.ResolvedSound | src/mm/memory.c:22-36 | mapping a new page, for a shared area or not, keeps counts exact and private writable pages alone |
| CowCounts.ReleasedSound | src/mm/memory.c:40-55 | so does undoing a mapping |
| CowCounts.FaultedSound | src/arch/x86/mm/fault.c:69-112 | so does the write fault |
| CowCounts.EntryAfter | src/mm/memory.c:22-55 | the entry that a new mapping, a release and a write fault leave at their page, and no other entry changes |
| CowCounts.FaultThenStore | src/arch/x86/mm/fault.c:69-112 | the fault changes nothing anyone reads, the store after it only what is read at that address |
| CowCounts.AnyRunExact | src/kernel/fork.c:61-118 | any run of clones, forks, faults, new mappings and releases, shared pages or not, keeps every count exact |
| CowCounts.AnyRunSound | src/kernel/fork.c:61-118 | and leaves no page writable in two places but those of shared areas |
| CowPages.CloneVma | src/kernel/fork.c:61-118 | both page tables and the counts become what cloning page by page gives, across 4M boundaries and up to 3G; the kernel's shared tables stay |
| CowPages.CloneMm | src/kernel/fork.c:120-151 | a new directory with the kernel's entries and tables of its own, mapping what forking area by area gives; what private writable areas map is read-only in both |
| CowPages.CopyEntry | src/kernel/fork.c:80-97 | one page of the loop |
| CowPages.Next4M | src/kernel/fork.c:101-110 | the child gets an empty table where it has none, no mapping changes and no kernel entry |
| CowPages.ResolveAddress | src/mm/memory.c:22-36 | the page is mapped and counted once, in a new table if there is none |
| CowPages.ReleaseAddress | src/mm/memory.c:40-55 | a mapped page is released, an unmapped address reported |
| CowPages.WriteFault | src/arch/x86/mm/fault.c:69-112 | made writable when alone, else moved to a copy with the same contents |
| CowPages.AddressSpace.Write | src/arch/x86/include/asm/page.h:113-120 | storing to a table changes the mapping of exactly one page |
| DynGraph.DepthIsDistance | cmd/ld.c:581-591 | each slot of the finished table lies at its recorded distance from the start |
| DynGraph.InTable | cmd/ld.c:581-591 | everything within a distance is in the table, no deeper than that |
| DynGraph.BreadthFirst | cmd/ld.c:581-591 | nobody in the table is nearer to the start than one before it |
| DynGraph.FirstMentionOrder | cmd/ld.c:550-562 | the table's names are all that are mentioned, in the order of first mention |
| DynGraph.FinishedResolvable | cmd/ld.c:581-591 | success means that every need in reach can be met |
| DynGraph.BadNeed | cmd/ld.c:550-577 | a need that cannot be met rules success out |
| DynGraph.TableBound | cmd/ld.c:98-100 | the table never outgrows the libraries in reach |
| DynGraph.Loaded | cmd/ld.c:558-561 | a library loaded behind the last slot keeps order, distances and closure |
| DynGraph.AlreadyThere | cmd/ld.c:551-557 | a name found in the table needs no new slot |
| DynOrder.TableIsSearchOrder | cmd/ld.c:550-591 | behind slot 0 the table of a linker without needs is the executable's own breadth-first order |
| DynOrder.SearchOrderUnique | cmd/ld.c:550-591 | there is only one such order |
| DynOrder.AgreeOutside | cmd/ld.c:550-591 | for any linker, table and executable's own order agree but for what is in the linker's reach |
| DynLinker.SearchInDynsym | cmd/ld.c:260-279 | the first symbol of that name that is defined, or none at all; whether its section index is an ordinary one |
| DynLinker.Linker.constructor | cmd/ld.c:660-690 | linker and executable in slots 0 and 1 |
| DynLinker.Linker.ResolveNeeded | cmd/ld.c:550-562 | met just when the name is the executable or a library and not the linker's; the table grows by the library just when the name is new |
| DynLinker.Linker.ResolveDependence | cmd/ld.c:565-577 | all needs of one module in their order, libc.so.6 skipped |
| DynLinker.Linker.ResolveDependenceR | cmd/ld.c:581-591 | succeeds just when all needs in reach can be met; then the table is closed, every need but libc.so.6 naming a slot, and breadth-first |
| DynLinker.Linker.FindSymbol | cmd/ld.c:284-302 | the first module of the table that defines the name, none just when no module does |
| DynLinker.NearestDefinition | cmd/ld.c:284-302 | no module in reach at a smaller distance defines it |
| DynLinker.NearestToExecutable | cmd/ld.c:284-302 | behind slot 0 and with a linker without needs, none nearer to the executable does |
| DynLinker.ExecutableFirst | cmd/ld.c:284-302 | with such a linker the search gives the executable's own order's answer if and only if the linker does not define the name |
| DynLinker.LinkerShadows | cmd/ld.c:284-302 | a linker and an executable with the same symbol, where it gives the other |
| DynLinker.SameOutside | cmd/ld.c:284-302 | for any linker, a name that nothing in its reach defines is found where the executable's own order finds it |
| BottomHalf.BottomHalves.constructor | src/kernel/bh.c:14-16 | nothing marked at first |
| BottomHalf.BottomHalves.MarkBh | src/kernel/bh.c:60-66 | one bit, one mark |
| BottomHalf.BottomHalves.DoIrq | src/irq.c:104-114 | exactly the handler's marks, then do_bh unless disabled, where nothing runs |
| BottomHalf.BottomHalves.Interrupts | src/irq.c:104-114 | interrupts during do_bh do nothing but mark, in their order |
| BottomHalf.BottomHalves.RunLowest | src/kernel/bh.c:29-33 | the routine of the lowest bit of the grabbed word runs, whatever arrives before or meanwhile |
| BottomHalf.BottomHalves.DoBh | src/kernel/bh.c:18-40 | terminates when interrupts stop; every mark that arrived is in the trace and has been followed by a run |
| BottomHalf.LowestBit | src/arch/x86/include/asm/bit.h:4-15 | the lowest bit of a word that is not zero |
| BottomHalf.NeverNested | src/kernel/bh.c:18-40 | between two starts the first routine has finished |
| BottomHalf.RunsBounded | src/kernel/bh.c:18-40 | at no time has a routine run more often than it was marked |
| BottomHalf.LowestFirst | src/kernel/bh.c:18-40 | the routines grabbed together start in the order of their ids |
| BottomHalf.AllServed | src/kernel/bh.c:35-39 | with both words empty no mark is unserved |
| Numerals.ValOfDigits | src/lib/vsprintf.c:138-173 | the digits written have the value |
| Numerals.HexValOfDigits | src/lib/vsprintf.c:158-168 | the hexadecimal numeral reads, by 0 to 9 and a to f, as the value, without a leading zero |
| Numerals.DigitsOfVal | src/lib/vsprintf.c:52-65 | reading, modulo 2^32, and writing again gives the same numeral just when it has no leading zero and a value below 2^32 |
| Numerals.WordReadsAsZero | src/lib/vsprintf.c:52-65 | 4294967296 comes back as 0 |
| Numerals.DigitsFit | src/lib/vsprintf.c:138-173 | a value below base^k takes at most k digits |
| Numerals.ReadBack | src/lib/vsprintf.c:52-65 | every 32-bit value written and followed by no digit is read back |
| Numerals.PowInt | src/ku_utils.c:42-49 | the power, modulo 2^32 |
| Numerals.TasteDecimal | src/lib/vsprintf.c:52-65 | the leading digits' value modulo 2^32, and how many there are |
| Printf.WidthIsExact | src/lib/vsprintf.c:84-100 | a positive width gives that many characters, cut or filled with blanks on the right |
| Printf.WriteChars | src/lib/vsprintf.c:84-100 | the fitted text in place, every other byte of the buffer unchanged |
| Printf.ShownFits | src/lib/vsprintf.c:138-173 | no 32-bit value takes more than ten characters |
| Printf.WriteDigits | src/lib/vsprintf.c:151-158 | the digits end where the buffer's last place begins |
| Printf.Value2Str | src/lib/vsprintf.c:138-173 | the text of the value, ended by NUL, within any buffer of eleven bytes or more: a decimal numeral, 0X and a hexadecimal one, or the character of the low byte |
| Printf.NumberReads | src/lib/vsprintf.c:15-50 | what a single %u, %x or %c prints is read as the value, for %c as the low byte |
| Printf.WriteVariable | src/lib/vsprintf.c:112-131 | the argument's text, fitted to the width |
| Printf.ReadWidth | src/lib/vsprintf.c:23-35 | width and flag of a directive, with its width argument used up |
| Printf.StarWidth | src/lib/vsprintf.c:23-35 | of two arguments of %*u the first is the width and the second the value |
| Printf.ZeroBegins | src/lib/vsprintf.c:23-35 | a directive that begins with 0 has no width and no flag: the program stops there |
| Printf.Sprintf | src/lib/vsprintf.c:15-50 | the buffer holds the format's output and a NUL, nothing behind it changes |
| Printf.StringPrints | src/lib/vsprintf.c:112-131 | %s prints its string if and only if it holds neither NUL nor a percent sign |
| Printf.PercentStops | src/lib/vsprintf.c:112-131 | a%b prints as a |
| Printf.FittedIsExact | src/lib/vsprintf.c:84-100 | a text fills its field as it should if and only if nothing stops it in the part to be shown |
| Printf.FormatOutput | src/lib/vsprintf.c:15-50 | a format built from texts and fields, widths in decimal or as arguments, prints them one after the other |
| Printf.FormatPrints | src/lib/vsprintf.c:15-50 | it prints what they stand for if and only if nothing stops any of them |
| Printf.NumbersPrint | src/lib/vsprintf.c:15-50 | so formats of texts and numbers always do |
| FlatText.NextIndex | lsh/vi.h:399-423 | right within a line, or from its newline to the next line, is plus one in the flat text |
| FlatText.OneCursor | lsh/vi.h:383-423 | a flat index belongs to one cursor |
| FlatText.BackFromNext | lsh/vi.c:626-653 | the stop before the stop after a stop is that stop |
| FlatText.TokenThenBlanks | lsh/vi.c:613-638 | from a stop to the next there is one word or one other character, and then blanks only |
| FlatText.JoinSplit | lsh/vi.c:769-793 | splitting a text into lines and joining them gives it back |
| FlatText.SplitJoin | lsh/vi.c:1585-1600 | joining lines and splitting gives them back |
| FlatText.MatchFoundIff | lsh/vi.c:586-611 | the eight-bit search finds the match if and only if brackets nest no deeper than 256 |
| FlatText.NoMatchIff | lsh/vi.c:586-611 | without a match it finds none if and only if the depth never steps down to a multiple of 256 |
| FlatText.ShallowStays | lsh/vi.c:586-611 | in particular where the depth stays within 256 |
| FlatText.DeepMatchMissed | lsh/vi.c:586-611 | 257 brackets opened and closed: the first closing one is taken for the match |
| FlatText.DeepMatchInvented | lsh/vi.c:586-611 | 257 opened and one closed: it is taken for a match where there is none |
| ArrayShift.ArrDel | lsh/utils.h:9-16 | the cells from at on are cut out, the array behind is unchanged |
| ArrayShift.ArrDel2 | lsh/utils.h:17-26 | likewise from cell m to cell n |
| ArrayShift.ArrOpen | lsh/utils.h:28-34 | a gap opens, all cells behind it move on |
| ArrayShift.ArrInsert | lsh/utils.c:12-17 | likewise, the gap cleared |
| ArrayShift.CharArrA | lsh/utils.c:19-23 | the snippet is spliced in |
| ArrayShift.CutUndoesSplice | lsh/utils.h:9-34 | cutting out what was spliced in restores the cells |
| ArrayShift.SpliceUndoesCut | lsh/utils.h:9-34 | and the other way round |
| Vi.TextBuffer.constructor | lsh/vi.c:749-762 | no line has a block yet |
| Vi.TextBuffer.StepRight | lsh/vi.h:413-426 | plus one in the flat text, refused just at its end |
| Vi.TextBuffer.StepLeft | lsh/vi.h:383-394 | minus one, refused just at its start |
| Vi.TextBuffer.SmellLeft | lsh/vi.c:1730-1736 | the character left of the cursor in the flat text |
| Vi.TextBuffer.W | lsh/vi.c:626-638 | to the next word stop; no move just when there is none |
| Vi.TextBuffer.B | lsh/vi.c:640-653 | to the previous word stop; no move just when there is none |
| Vi.TextBuffer.WThenB | lsh/vi.c:626-653 | from a stop, b succeeds whenever w did and is back at the same cursor |
| Vi.TextBuffer.PercentLine | lsh/vi.c:595-609 | one line of the bracket search |
| Vi.TextBuffer.Percent | lsh/vi.c:586-611 | from a bracket to the first place where eight-bit counts of the pair agree, its buddy; no move just when there is none |
| Vi.TextBuffer.LineMk | lsh/vi.c:1333-1342 | the line shows the text and a newline, in its old block or a larger one with the old one freed; no other slot changes |
| Vi.TextBuffer.Set | lsh/vi.c:769-793 | what becomes of every slot; if those of the lines are clean, the buffer holds the lines of the text |
| Vi.TextBuffer.ReadyDisplays | lsh/vi.c:769-793 | then every slot shows its line, in a block that is not freed |
| Vi.TextBuffer.SetUnclean | lsh/vi.c:769-793 | if the first k slots are not clean, some text of k lines is not shown or a freed block is touched |
| Vi.SetAfterDD | lsh/vi.c:769-793 | two lines set after dd on the first of two: both slots name one block |
| Vi.TextBuffer.ReadyIsClean | lsh/vi.c:769-793 | any buffer, after any edits, may be set to a text of no more lines than it has |
| Vi.TextBuffer.FileSize | lsh/vi.c:1559-1567 | the length of the flat text |
| Vi.TextBuffer.Out | lsh/vi.c:1585-1600 | the joined lines and a NUL, so after Set the text that was set |
| Vi.TextBuffer.RequireLen | lsh/vi.c:1238-1244 | room for the size, same text; an outgrown block is freed |
| Vi.TextBuffer.InsertSafe | lsh/vi.c:1250-1253 | text goes in at the cursor, which ends on its last character |
| Vi.TextBuffer.AppendSafe | lsh/vi.c:1258-1262 | likewise behind the cursor |
| Vi.TextBuffer.DelWithin | lsh/vi.c:1039-1054 | the selection is cut from the line, the cursor stays on it |
| Vi.TextBuffer.YWithin | lsh/vi.c:1077-1081 | the selection in the clipboard |
| Vi.TextBuffer.Y | lsh/vi.c:1186-1201 | a selection either way round is copied, and selecting ends |
| Vi.TextBuffer.D | lsh/vi.c:1168-1179 | the line loses the selection, both ends included, the clipboard has it; the cursor where it began, or on the last character left |
| Vi.TextBuffer.DTail | lsh/vi.c:1466-1470 | the line cut at the cursor, the rest in the clipboard |
| Vi.TextBuffer.Tear | lsh/vi.h:156-159 | three arrays shift together, a cleared gap in each |
| Vi.TextBuffer.ALines | lsh/vi.h:156-165 | empty lines, in new blocks, behind a line; the arrays stay in step |
| Vi.TextBuffer.DelLines | lsh/vi.h:259-269 | the lines go from all three arrays and their blocks are freed; just the slots of the lines left are clean |
| Vi.TextBuffer.YY | lsh/vi.c:1388-1395 | the line in the clipboard |
| Vi.TextBuffer.DD | lsh/vi.c:1399-1405 | the line gone to the clipboard; just the slots of the lines left are clean |
| Vi.TextBuffer.PasteYY | lsh/vi.c:1099-1110 | the clipboard's line below the cursor's, the cursor at its start |
| Vi.TextBuffer.PasteLine | lsh/vi.c:1112-1119 | the line up to and with the cursor's character, then the clipboard's text, then the rest, the cursor on the text's last character; in an empty line the text alone |
| Vi.TextBuffer.P | lsh/vi.c:1211-1231 | one of the two, with the lines and the cursor after it, or nothing with an empty clipboard |
| Vi.TailComesBack | lsh/vi.c:1039-1119 | d$ and then p restores the text |
| Vi.SelectionComesBack | lsh/vi.c:1039-1119 | any selection that leaves something before it, deleted and pasted again from there, restores the text |
| Vi.CopyComesAndGoes | lsh/vi.c:1099-1110 | yy, p, dd restores all lines |
| Vi.LineComesBack | lsh/vi.c:1399-1405 | dd and then p from the line above restores all lines |

## Left out

- Heap.KernelHeap.Kmalloc: sizes below -4 and sums beyond the range of `int` are not modelled; `byte + 4` is then compared as unsigned.
- Slab.Cache.constructor: `__register_slab_type` never sets `free_objs`, and the block it fills is not zeroed; the count is modelled as starting at 0.
- Slab.Cache.Free: frees of objects that are not in use are excluded, as the source does not detect them.
- CowPages.CloneVma: the parent's page tables are present for the pages of the area, as the source reads them without a test; entries swapped to disk stop the source. The copied list of areas, and files mapped by them, are not modelled.
- VmaRing.Mm.VmAreaExpand: the page alignment assertion is not needed and not required.
- Vi.TextBuffer.LineMk: `realloc` always moves the block and an address is not handed out twice; a block enlarged in place is not modelled.
- Vi.TextBuffer.Y: likewise within one line and without its newline, as for D.
- Vi.TextBuffer.D: selections across lines, and selections that include a newline, are excluded; for the latter the source's own assertion fails.
- Vi.TextBuffer.P: below a full buffer of 8192 lines no line is pasted, where the source writes behind its arrays; pasting into a line is covered.
- Vi.TextBuffer.DD: not on a buffer of one line, where no line is left.
- Vi.TextBuffer.Percent: brackets are searched forward only, also from a closing one, as in the source.
- DynLinker.Linker.constructor: at most 1022 libraries in reach, what the source's table of 1024 modules has room for without a test.
- DynLinker.ExecutableFirst: the equivalence is for a linker that needs no library itself; for others `DynLinker.SameOutside` gives one direction.
- Zone fallback in `alloc_pages`, zones whose start or span is no multiple of 256 pages, debugging counters.
- Kernel lists in the page allocator, the slab queues and the scheduler are sequences: their order is modelled, their link fields are not. The heap, the open upvalues, the memory areas and the page tables are modelled with their pointers.
- Interrupt disabling inside allocators and queues: each operation is one step. Bottom halves and the pipe are interleaved.
- An interrupt handler in `BottomHalf` runs with interrupts off, as every registered one does; `alloc_bh` and `free_bh`, and marks of routines not in use, which stop the source.
- TLB flushes, directory flags, the pages that hold page tables, and areas backed by files.
- Slab constructors and destructors, `kmalloc2`; `do_pipe`'s reference counts, several readers or writers on one end.
- `luaK_patchclose`, `removevalues`, the rest of the code generator; garbage collection barriers and thread lists of upvalues.
- Process creation beyond its place in the active list; fork's division of slices, exit, stack switching.
- ELF parsing, relocation and lazy binding in the linker; a file that opens and parses is an entry of the library map.
- Format flags other than u, x, c and s, and missing arguments, where the source loops forever or reads beyond its arguments.
- Regular expression search, marks, multi-line delete and paste, inserts with line breaks, `vi_e` and `vi_W` in the text buffer.
- `get_unmapped_area`, `vm_area_shrink`, the block cache, TCP, drivers.
