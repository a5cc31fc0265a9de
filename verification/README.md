# ShipOS kernel: a verified model

This project models the parts of the ShipOS kernel whose correctness depends on many operations
together, and proves properties of every input, every run or every reachable state.

- **Virtual memory over the page allocator** (`Bits`, `PageEntry`, `PageTree`, `Addressing`, `FreeList`,
  `Walks`, `Ranges`, `KernelMemory`, `Boot`, `MemoryClient`). Physical memory is a sequence of pages of 512
  words. The free list and the page tables live in those pages, as in the kernel: `kalloc`, `walk`,
  `map_page` and the rest read and write words of them. The address space is what the hardware would see by
  following entries from the root. The kernel reaches its own pages through that address space, using
  physical addresses as pointers; `Addressing` writes each function as its loads and stores by virtual
  address, any of which may fault, and every operation is proved to have exactly the effect of those
  accesses as long as the kernel's pages are mapped to themselves and writable. Proved: the tables always
  form a tree, writes elsewhere change no translation, each call does exactly one stated thing to the
  address space, which calls take a page of the kernel away, the boot sequence ends with the whole pool
  usable exactly when enough pages are left, and in every run up to the first call that takes a page of the
  kernel away, free pages, table pages and client pages stay disjoint and the calls have their effects one
  after the other.
- **The SMP scheduler** (`RunQueue`, `ThreadRing`, `SchedModel`, `SchedSafety`, `SchedFair`, `SchedLoad`,
  `SchedStates`, `SchedEffects`, `SmpSched`). `ThreadRing` is the circular doubly linked list on heap nodes; `SmpSched` is the scheduler
  over CPUs that own such lists. `SchedModel` is the same scheduler as a step system over values, and
  every operation of `SmpSched` is proved to take exactly the step of that name, so the theorems about
  runs of steps (safety, bounded waiting, finality of exit, conservation of threads, placement, convergence of balancing) hold of
  runs of the code. `SchedEffects` says what each step does, queue by queue and thread by thread.
- **The single-CPU scheduler** (`ProcSched`): `get_next_thread` over the ring of processes.
- **Spinlocks and nested interrupt disabling** (`Spinlock`), as an interleaving of any number of CPUs
  over any number of locks: what holds in every reachable state, and what a whole acquire or release does, whatever
  the other CPUs do meanwhile.
- **The number formatter** (`Digits`, `NumberFormat`) on character buffers: the shape of the output, and its round trip.
- **The terminal buffer** (`Terminal`), as a 25-row view of an endless sheet of paper, character by character.

`Wrappers` holds the option type. `dafny verify dfyconfig.toml` checks the whole project.

## How to read the model

A method's Boolean result is false where the source panics, returns -1 or spins forever. Machine words
are natural numbers below 2^64, and every place where the source's arithmetic can wrap is written out:
address rounding, the range loops, entry encoding, the load difference in `sched_balance`. Ghost fields
(`free`, `tree`, `held` in `Kernel`; `nodes` in `Ring`; `paper`, `top` in `Tty`) are tied to the real
fields by the class's `Valid`. Results that the source does not return (`at`, `lost`, `removed`, `done`,
`trace`) tell where a loop stopped, what a call took away, or what a run went through.

Some things the code does are not what its documentation says, or what one might expect. The model
follows the code, and each has a lemma:

- `map_page` documents `PTE_U` as making a page user-accessible. Intermediate tables are always linked
  supervisor-only, so no page is ever accessible to user mode (`PageTree.NeverUser`).
- A failed `map_pages` removes pages of the range that were mapped before the call. Where it will stop can
  be told before the call, and it leaves the address space as it was exactly when no page before that one
  was mapped (`KernelMemory.Kernel.MapPages`; `MemoryClient.FailedMapLoses` makes such a call).
- Mapping calls do not protect the kernel's own pages. A client can unmap a free page and map its address to
  a page table, and the next `kalloc` overwrites that table (`MemoryClient.Misdirect`). Mapping one read-only
  makes the next write fault, since CR0.WP is set. `MemoryClient.Step` says exactly which calls do this.
- `kfree` does not check for a page that is already free; the list is then no list
  (`FreeList.NotAList`).
- A range whose end is within a page of 2^64 wraps, and some byte of it is missed (`Ranges.SpanMisses`).
- `utoa64` documents radix 2 to 36 and uses 10 for anything above 16: its output reads back in the radix
  asked for exactly up to 16, or for one-digit numbers (`Digits.DocumentedRadix`, `Digits.RadixThirtySix`).
- The process quantum of `get_next_thread` never takes effect, because its counter is only ever set to 0:
  a process that always has a runnable thread keeps the CPU (`ProcSched.HeadKeepsTheCpu`). If the counter
  did reach 5, the process then at the head would not be looked at in that call (`ProcSched.SelectIs`).
- `holding_spinlock` does not say who holds the lock. A release by a CPU that does not hold it returns exactly
  if the lock is taken and the CPU holds another one, otherwise it panics; either way the lock word ends
  clear (`Spinlock.StrayReleaseIs`), and another CPU can take the lock (`Spinlock.StrayRelease`).

## Model

| member | source | states |
|---|---|---|
| PageEntry.DecodeEncode | kernel/paging/paging.c:15-53 | decoding an encoded entry gives every field back, the two numeric ones cut to their widths |
| PageEntry.EncodeDecode | kernel/paging/paging.c:15-53 | encoding a decoded word gives the word back when its top sixteen bits are clear |
| PageEntry.EncodeBits | kernel/paging/paging.c:15-32 | the word of an entry as a sum of its bits |
| PageEntry.InitWord | kernel/paging/paging.c:80-97 | the word written for a table reads back as present, writable, supervisor, and the frame of the address |
| PageEntry.InitBits | kernel/paging/paging.c:80-97 | that word is 3 plus the frame shifted by 12, in numbers |
| PageEntry.FlaggedWord | kernel/paging/paging.c:243-256 | the word `map_page` writes reads back with the caller's flags and the frame of the address |
| PageEntry.FlaggedBits | kernel/paging/paging.c:243-256 | that word is 1, bits 1 to 4 of the flags in their own places, and the frame shifted by 12 |
| PageEntry.RoundDownIs | kernel/memlayout.h:64 | rounding down is the greatest page boundary not above the address |
| PageEntry.RoundUpIs | kernel/memlayout.h:57 | rounding up is the least page boundary not below the address, when it does not wrap |
| PageEntry.JoinOffset | kernel/paging/paging.c:333 | or-ing the page offset under a shifted frame is adding it |
| PageTree.LevelIndex | kernel/paging/paging.c:101 | the index `walk` computes at a level is the base-512 digit of the page number |
| PageTree.PathsDiffer | kernel/paging/paging.c:99-123 | different page numbers take different paths, so no two share a last-level entry |
| PageTree.OnePointer | kernel/paging/paging.c:106-117 | a table other than the root is pointed to by exactly one present entry of the upper levels, at its own index one level up; nothing points to the root |
| PageTree.ResolveIsTree | kernel/paging/paging.c:99-123 | following entries through memory reaches exactly the tables of the tree |
| PageTree.LookupIsTree | kernel/paging/paging.c:99-123 | the translation of a page is its entry in the last-level table on its path, and none if a table is missing |
| PageTree.WriteElsewhere | kernel/kalloc/kalloc.c:37-60 | writing pages that hold no table keeps the tree and every translation |
| PageTree.LinkKeepsTree | kernel/paging/paging.c:112-117 | linking a cleared page under a missing entry keeps the tree well-formed, one table larger |
| PageTree.LinkKeepsSpace | kernel/paging/paging.c:112-117 | and changes no translation |
| PageTree.WriteLeaf | kernel/paging/paging.c:256 | writing one last-level entry changes the translation of exactly one page number |
| PageTree.WriteLeafSpace | kernel/paging/paging.c:308 | the whole address space after such a write |
| PageTree.NeverUser | kernel/paging/paging.c:80-97 | no page is accessible to user mode in any well-formed tree, whatever flags were asked for |
| PageTree.WritableByLeaf | kernel/paging/paging.c:80-97 | a page is writable exactly when its last-level entry is present and writable |
| Addressing.LoadIs | kernel/paging/paging.c:103-104 | a load by the physical address of a usable page reaches that page |
| Addressing.StoreIs | kernel/paging/paging.c:117 | so does a store, under CR0.WP |
| Addressing.FillIs | kernel/kalloc/kalloc.c:39 | filling a page word by word never disturbs the translations it goes through |
| Addressing.FilledBytes | kernel/kalloc/kalloc.c:60 | every byte of a page from `kalloc` is 5, every byte of a cleared page 0 |
| Addressing.KallocIs | kernel/kalloc/kalloc.c:54-60 | the accesses of `kalloc` do not fault and pop the first page |
| Addressing.KfreeIs | kernel/kalloc/kalloc.c:39-45 | the accesses of `kfree` do not fault and push the page |
| Addressing.LinkIs | kernel/paging/paging.c:108-117 | the accesses of the missing-table branch do not fault and link a cleared page |
| FreeList.Head | kernel/kalloc/kalloc.c:54-55 | the head is 0 exactly for the empty list, else the address of the first free page |
| FreeList.Pop | kernel/kalloc/kalloc.c:54-60 | advancing the head past an overwritten page pops exactly that page |
| FreeList.Push | kernel/kalloc/kalloc.c:39-45 | storing the old head in a page and making it the head pushes exactly that page |
| FreeList.NotAList | kernel/kalloc/kalloc.c:28-47 | after freeing a free page again, no sequence of distinct pages is the free list |
| FreeList.WriteUsed | kernel/kalloc/kalloc.c:28-62 | writing pages that are not free leaves the list intact |
| FreeList.DistinctCount | kernel/kalloc/kalloc.c:64-75 | no page is counted twice |
| Walks.MissingIsSuffix | kernel/paging/paging.c:99-119 | the missing tables of a path are always its last ones |
| Walks.GrownStep | kernel/paging/paging.c:108-118 | taking and linking one page supplies the next missing table and no other |
| Walks.GrownReach | kernel/paging/paging.c:99-123 | how deep the walk gets after linking k tables |
| KernelMemory.Kernel.constructor | kernel/main.c:228 | the state handed over by the boot code: a table tree and an empty pool |
| KernelMemory.Kernel.Kfree | kernel/kalloc/kalloc.c:28-47 | panics exactly for addresses off a page boundary or outside the pool; otherwise links the page in, and the state stays valid exactly when the page was neither free nor a table; then the page is pushed and no translation changes |
| KernelMemory.Kernel.Kalloc | kernel/kalloc/kalloc.c:49-62 | 0 exactly when the pool is empty; otherwise the first free page, filled, and owned by nobody else; by address the same |
| KernelMemory.Kernel.Store | kernel/kalloc/kalloc.c:60-61 | a client's write to a page it holds changes that word only, and no translation |
| KernelMemory.Kernel.CountPages | kernel/kalloc/kalloc.c:64-75 | the loop over links terminates and counts the free pages |
| KernelMemory.Kernel.AddTable | kernel/paging/paging.c:108-118 | a free page becomes the missing table, no translation changes, no page is lost |
| KernelMemory.Kernel.Descend | kernel/paging/paging.c:101-118 | one level of the walk: the child table, added if missing and asked for |
| KernelMemory.Kernel.Walk | kernel/paging/paging.c:99-123 | finds the entry of the page; links exactly the missing tables, or as many as the pool has; changes no translation; every page taken is already a table when it fails; by address the same |
| KernelMemory.Kernel.MapPage | kernel/paging/paging.c:226-261 | succeeds exactly when the pool covers the missing tables and no mapping would be redirected; then maps exactly that page; a failure changes no translation; by address the same |
| KernelMemory.Kernel.MapEntry | kernel/paging/paging.c:235-260 | refuses exactly to redirect the page; otherwise writes its entry |
| KernelMemory.Kernel.UnmapPage | kernel/paging/paging.c:295-311 | removes exactly one page number and gives no table back; by address the same |
| KernelMemory.Kernel.UnmapPages | kernel/paging/paging.c:313-320 | removes exactly the page numbers of the range; the kernel's pages stay usable exactly if none is among them, and then by address the same |
| KernelMemory.Kernel.MapPages | kernel/paging/paging.c:263-279 | stops at the first page that redirects a mapping or exceeds the pool, known before the call, for every size; on success page k of the range maps to frame k of the source and nothing else changes; on failure the pages before that one are gone, so nothing changed exactly when none of them was mapped; when the kernel's pages stay usable, and then by address the same |
| KernelMemory.Kernel.MapNext | kernel/paging/paging.c:268-276 | one iteration: maps the next page or stops at the first blocked one |
| KernelMemory.Kernel.RollBackTo | kernel/paging/paging.c:270-273 | the rollback removes the pages before the blocked one |
| KernelMemory.Kernel.MapMmio | kernel/paging/paging.c:281-293 | succeeds exactly when no page of the range is blocked, which is known before the call; then exactly the pages of the range are mapped, writable and uncached, and every byte of the range translates to itself, for any alignment and size that does not wrap |
| KernelMemory.Kernel.KinitPage | kernel/kalloc/kalloc.c:24-25 | one iteration: panics exactly outside the pool, otherwise the page is first in the list |
| KernelMemory.Kernel.Kinit | kernel/kalloc/kalloc.c:19-26 | frees exactly the pages p with p + PGSIZE below the end, in ascending order, for every start and end; exactly when `kfree` panics |
| KernelMemory.Kernel.InitPage | kernel/paging/paging.c:211-215 | one iteration of `kvminit`: maps a page to itself unless the pool cannot cover its tables |
| KernelMemory.Kernel.SelfMap | kernel/paging/paging.c:207-219 | the loop of `kvminit` gets through exactly when the end is at least a page below 2^64 and the tables of the whole range fit in the pool |
| KernelMemory.Kernel.Kvminit | kernel/paging/paging.c:203-220 | the same from any start; afterwards the range maps to itself, nothing else changed, and the kernel's pages are still usable |
| KernelMemory.Kernel.VaToPa | kernel/paging/paging.c:322-334 | frame and offset of a mapped address, 0 for an unmapped one; changes nothing |
| Ranges.InstallNext | kernel/paging/paging.c:268-276 | one more page of a range, also when a long range comes back to a page number already visited |
| Ranges.LeafBits | kernel/paging/paging.c:243-256 | the mapping installed: which flag bit sets which permission, and the frame |
| Ranges.RollBack | kernel/paging/paging.c:270-272 | unmapping the installed prefix leaves the original space without the visited page numbers |
| Ranges.RemovalIsVisible | kernel/paging/paging.c:269-274 | the rollback restores the original space exactly when no visited page was mapped before |
| Ranges.BlockedNow | kernel/paging/paging.c:269 | whether page k fails can be told from the state before the call, for every k |
| Ranges.ConflictAgain | kernel/paging/paging.c:237-241 | beyond 2^36 pages a page is refused exactly when its source address does not fit in 48 bits |
| Ranges.FirstBlockedMeans | kernel/paging/paging.c:268-276 | the predicted page is blocked and none before it is |
| Ranges.IdentityAfterRemoval | kernel/paging/paging.c:295-320 | removing pages breaks the identity mapping of a set of frames exactly when one of them is among those frames |
| Ranges.SpanCovers | kernel/paging/paging.c:263-268 | every byte of a range lies in a visited page when its rounded end stays below 2^64 |
| Ranges.SpanMisses | kernel/paging/paging.c:263-268 | otherwise some byte is missed |
| Ranges.PageCountIs | kernel/paging/paging.c:209 | how often a loop with the test p + PGSIZE < end runs, with the sum in 64 bits |
| Ranges.IdentityRange | kernel/paging/paging.c:281-293 | in a range mapped to itself every byte translates to itself |
| Boot.BuildTables | x86_64/boot/boot.asm:15-39 | the loop fills the four tables with the entries of an identity map of 512 pages |
| Boot.BootWord | x86_64/boot/boot.asm:31-39 | a boot entry is the word `init_entry` would write |
| Boot.BootTreeOk | x86_64/boot/boot.asm:15-39 | the four boot tables form a well-formed tree |
| Boot.BootSpace | x86_64/boot/boot.asm:15-39 | they map pages 0 to 511 to themselves and nothing else |
| Boot.BootTables | kernel/main.c:232 | mapping 2 MiB to 128 MiB needs exactly 63 more tables |
| Boot.BootUsable | kernel/main.c:228-244 | after `kvminit` every page of the memory but the last is mapped to itself and writable |
| Boot.BootMemory | kernel/main.c:228-244 | the boot gets past `kvminit` exactly when the kernel ends 64 pages below 2 MiB; then every free page and every table is mapped to itself and writable |
| MemoryClient.StepAlloc | kernel/kalloc/kalloc.c:49-62 | the client gets the first free page, filled with junk, and the list its rest; nothing happens when the pool is empty |
| MemoryClient.StepFree | kernel/kalloc/kalloc.c:28-47 | the page the client picked is the first free page, its first word the old head |
| MemoryClient.StepStore | kernel/kalloc/kalloc.c:60-61 | one word of the page picked changes and nothing else |
| MemoryClient.StepUnmap | kernel/paging/paging.c:295-311 | exactly that page is gone from the address space; the kernel's pages stay mapped to themselves, and usable, exactly when it is none of them |
| MemoryClient.StepUnmapRange | kernel/paging/paging.c:313-320 | the same for a range |
| MemoryClient.StepMapOne | kernel/paging/paging.c:226-261 | the address space and the tables after it; the kernel's pages stay mapped to themselves, and usable exactly unless it succeeds on one of them read-only |
| MemoryClient.StepMapRange | kernel/paging/paging.c:263-279 | the address space after it; the kernel's pages stay mapped to themselves exactly unless it fails after mapping one of them, and usable exactly unless it does that or succeeds read-only on one of them |
| MemoryClient.StepMmio | kernel/paging/paging.c:281-293 | `map_mmio` keeps them mapped to themselves and usable exactly unless it fails after mapping one of them |
| MemoryClient.Step | kernel/paging/paging.c:226-334 | on usable pages, any client call has the effect stated for it, and keeps the invariant, the tables and the balance of pages, as long as it takes none of them away; which it takes is known before the call, and that is exactly when they stay usable |
| MemoryClient.Run | kernel/kalloc/kalloc.c:28-62 | in every run of allocations, frees, stores, maps and unmaps, up to the first call that takes a page of the kernel away, every call has its effect on what the one before left; free pages, tables and client pages stay disjoint, add up to the same frames, no table moves, and all stay mapped to themselves and writable |
| MemoryClient.AllocsInOrder | kernel/kalloc/kalloc.c:49-62 | a run of n allocations hands out the first n free pages in list order |
| MemoryClient.AllocThenFree | kernel/kalloc/kalloc.c:28-62 | freeing the page just allocated brings back the list, the held pages, the address space and every other page |
| MemoryClient.Misdirect | kernel/kalloc/kalloc.c:54-60 | past such a call this fails: after unmapping a free page and mapping its address to a table, the accesses of `kalloc` read and overwrite the table |
| MemoryClient.FailedMapLoses | kernel/paging/paging.c:269-274 | three calls after which a failed `map_pages` has removed a mapping it did not make |
| ThreadRing.Ring.Push | kernel/sched/threads.c:39-52 | appends at the end of the sequence read from the head; links stay mutually inverse |
| ThreadRing.Ring.Remove | kernel/sched/smp_sched.c:95-132 | deletes the first occurrence and says whether there was one |
| ThreadRing.Ring.Unlink | kernel/sched/smp_sched.c:108-127 | takes one node out of the ring, moving the head if it was the head |
| ThreadRing.Ring.GetNext | kernel/sched/smp_sched.c:137-160 | the first runnable thread, the head moving just past it; unchanged if there is none |
| ThreadRing.Ring.Peek | kernel/sched/threads.c:80-86 | the first element |
| ThreadRing.Ring.Shift | kernel/sched/threads.c:72-78 | the list read from its second node |
| ThreadRing.LinkedRotated | kernel/sched/smp_sched.c:150-154 | reading the ring from another node is a rotation of its sequence |
| RunQueue.SelectLowersPosition | kernel/sched/smp_sched.c:137-160 | choosing another thread moves every waiting runnable thread strictly forward |
| RunQueue.RemovedMembers | kernel/sched/smp_sched.c:95-132 | removal takes out exactly the named thread |
| RunQueue.RotatedMembers | kernel/sched/smp_sched.c:150-154 | selection keeps the threads of the queue |
| SchedModel.LeastIs | kernel/sched/smp_sched.c:390-405 | the scan finds the first started CPU of least load, or CPU 0 if none is started |
| SchedModel.MostIs | kernel/sched/smp_sched.c:414-430 | the scan finds the first started CPU of greatest load |
| SchedModel.BalancePair | kernel/sched/smp_sched.c:432-436 | past the threshold test, which subtracts in 32 bits, source and target are started, different, and at least 2 apart |
| SchedSafety.StepKeeps | kernel/sched/smp_sched.c:213-468 | every step keeps counters equal to queue lengths and all CPUs' threads apart |
| SchedSafety.ReachableIsSafe | kernel/sched/smp_sched.c:213-468 | in every state reachable from boot no thread is current on two CPUs or in two queues or twice in one, the counter is the queue length, and a current thread is in its own CPU's queue unless idle or removed |
| SchedSafety.ExitRemovesEverywhere | kernel/sched/smp_sched.c:313-337 | searching only the local queue leaves the exited thread in no queue and current nowhere |
| SchedSafety.ExitIsFinal | kernel/sched/smp_sched.c:307-337 | an exited thread is never current again in any later run, unless added again |
| SchedSafety.OutsideForever | kernel/sched/smp_sched.c:248-362 | a thread in no queue is never chosen until it is added |
| SchedFair.BoundedWaiting | kernel/sched/smp_sched.c:137-160 | a thread that stays runnable in its queue is chosen by the time its CPU has made one more selection than there were threads ahead of it, whatever else happens |
| SchedFair.NextPlace | kernel/sched/smp_sched.c:84-160 | no step moves a waiting thread back, and a selection that passes it over moves it forward |
| SchedLoad.PlacementKeepsBalanced | kernel/sched/smp_sched.c:213-246 | loads within 1 of each other stay so through any number of automatic placements |
| SchedLoad.MigrationEffect | kernel/sched/smp_sched.c:454-456 | a migration keeps the total load and lowers the sum of squared loads by 2 (max - min) - 2 |
| SchedLoad.MigrationKeepsThreads | kernel/sched/smp_sched.c:454-456 | a migration keeps the collection of queued threads |
| SchedLoad.VictimIff | kernel/sched/smp_sched.c:407-468 | a thread is moved exactly when two started CPUs differ by 2 or more and the first most loaded one has a runnable thread that is neither current nor idle |
| SchedLoad.BalanceEffect | kernel/sched/smp_sched.c:407-468 | when queued threads that are not current are runnable: nothing happens if loads are within 1, otherwise the sum of squares falls; no thread is lost |
| SchedLoad.BalancingConverges | kernel/sched/smp_sched.c:407-468 | under the same condition, at most half the sum of squared loads many calls bring all started CPUs within 1 |
| SchedLoad.StepReady | kernel/sched/smp_sched.c:213-468 | every scheduler step keeps each queued thread runnable or running, which implies that condition |
| SchedLoad.ReachableConverges | kernel/sched/smp_sched.c:407-468 | hence from boot, after any run in which nothing else changes thread states, repeated balancing evens out the load |
| SchedStates.StepMarked | kernel/sched/smp_sched.c:213-468 | every scheduler step keeps ON_CPU exactly on running and idle threads |
| SchedStates.RunMarked | kernel/sched/smp_sched.c:213-468 | hence in every run in which only the scheduler changes thread states |
| SchedStates.StepLedger | kernel/sched/smp_sched.c:213-468 | threads enter the queues only when added and leave only when removed or exiting, each exactly once |
| SchedStates.RunLedger | kernel/sched/smp_sched.c:213-468 | conservation of queued threads over every run |
| SchedEffects.AddIs | kernel/sched/smp_sched.c:213-246 | the thread is last in the queue of the CPU named and runnable; no other CPU and no other thread changes |
| SchedEffects.AddAutoIs | kernel/sched/smp_sched.c:224-228 | automatic placement adds to the first started CPU of least load |
| SchedEffects.AddAutoNone | kernel/sched/smp_sched.c:390-405 | and to CPU 0 if none is started |
| SchedEffects.DispatchIs | kernel/sched/smp_sched.c:345-361 | the first runnable thread gets the CPU and goes behind all others, those after it first; the idle thread if there is none, the queue then as it was |
| SchedEffects.YieldIs | kernel/sched/smp_sched.c:290-305 | the thread is runnable again, still current and in its place in the queue; nothing for no thread or the idle thread |
| SchedEffects.IdleYieldIs | kernel/sched/smp_sched.c:34-41 | nothing changes but that the CPU is back in its loop |
| SchedEffects.ExitIs | kernel/sched/smp_sched.c:313-337 | the thread is in state EXIT, out of the queue, whose order stays, and the CPU has no current thread |
| SchedEffects.RemoveIs | kernel/sched/smp_sched.c:248-268 | the thread leaves its queue, whose order stays; states and current threads stay |
| SchedEffects.BalanceIs | kernel/sched/smp_sched.c:407-468 | the first movable thread of the first most loaded CPU goes to the end of the first least loaded one; all else stays |
| SmpSched.Percpu.constructor | kernel/sched/smp_sched.c:173-207 | a CPU gets an empty list and no current thread, and stays started or not |
| SmpSched.Scheduler.constructor | kernel/sched/smp_sched.c:173-207 | CPUs with separate empty lists are a scheduler in its initial state |
| SmpSched.Scheduler.AddThread | kernel/sched/smp_sched.c:213-246 | panics exactly for a null thread or an index out of range; otherwise the list of the CPU named, or of the least loaded one, has the thread at its end and no other list changes, the thread is runnable and no other state changes; this is the placement step |
| SmpSched.Scheduler.PushAt | kernel/sched/smp_sched.c:84-88 | appends to one CPU's list; no other CPU changes |
| SmpSched.Scheduler.FindLeastLoaded | kernel/sched/smp_sched.c:390-405 | the loop computes the least loaded CPU |
| SmpSched.Scheduler.RemoveThread | kernel/sched/smp_sched.c:248-268 | removes the thread from the first list that holds it; a null thread is ignored |
| SmpSched.Scheduler.RemoveAt | kernel/sched/smp_sched.c:95-132 | removes from one CPU's list; no other CPU changes |
| SmpSched.Scheduler.GetNext | kernel/sched/smp_sched.c:270-284 | chooses and rotates, or falls back to the idle thread |
| SmpSched.Scheduler.Dispatch | kernel/sched/smp_sched.c:345-361 | one round of the scheduler loop |
| SmpSched.Scheduler.Yield | kernel/sched/smp_sched.c:290-305 | nothing for no thread or the idle thread; otherwise runnable again, still queued |
| SmpSched.Scheduler.IdleYield | kernel/sched/smp_sched.c:34-41 | the idle thread gives the CPU back |
| SmpSched.Scheduler.Exit | kernel/sched/smp_sched.c:313-337 | the current thread leaves the local list and the CPU |
| SmpSched.Scheduler.FindMigratable | kernel/sched/smp_sched.c:444-463 | the first thread that may migrate, or none |
| SmpSched.Scheduler.FindExtremes | kernel/sched/smp_sched.c:410-430 | the scan for the most and the least loaded CPU |
| SmpSched.Scheduler.MigrateFirst | kernel/sched/smp_sched.c:438-465 | at most one thread moves, between two lists |
| SmpSched.Scheduler.Balance | kernel/sched/smp_sched.c:407-468 | the balancing step |
| SmpSched.Scheduler.Run | kernel/sched/smp_sched.c:213-468 | any legal sequence of calls on heap lists ends in the state the step system reaches |
| ProcSched.Scheduler.GetNextThread | kernel/sched/scheduler.c:16-48 | on circular lists of processes and threads, the nested loops terminate and compute the selection; the round counter never grows |
| ProcSched.Scheduler.LookAt | kernel/sched/scheduler.c:32-41 | the inner loop shifts the thread list of the first process past what it looked at, and no other list |
| ProcSched.Scheduler.ScanRing | kernel/sched/scheduler.c:35-41 | the do-while over one thread list |
| ProcSched.Scheduler.NextProc | kernel/sched/scheduler.c:26-45 | one iteration of the outer loop |
| ProcSched.Scheduler.ShiftProcs | kernel/sched/proc.c:107-113 | the process list read from its second node |
| ProcSched.SelectIs | kernel/sched/scheduler.c:16-48 | which process and thread are chosen, which panic occurs, and where every list ends up; all lists are back at their start when nothing is found |
| ProcSched.FoundIff | kernel/sched/scheduler.c:16-48 | with no empty process, a thread is found exactly if some process looked at has a runnable one, and it is runnable |
| ProcSched.HeadKeepsTheCpu | kernel/sched/scheduler.c:20-23 | a process that has a runnable thread at every call is the only one ever chosen from |
| ProcSched.StrictRotation | kernel/sched/scheduler.c:35-41 | threads of one process that are all runnable get turns in strict rotation, over any number of calls |
| Spinlock.Percpu.Push | kernel/sched/percpu.c:367-376 | interrupts off, depth one more, flag saved at depth 0 |
| Spinlock.Percpu.Pop | kernel/sched/percpu.c:378-393 | when it panics, and when it turns interrupts on |
| Spinlock.PushPop | kernel/sched/percpu.c:367-393 | `pushcli` turns interrupts off, and `popcli` brings depth and flag back |
| Spinlock.StepKeeps | kernel/sync/spinlock.c:15-57 | every step of every CPU keeps the invariant |
| Spinlock.ReachableIsSafe | kernel/sync/spinlock.c:15-57 | whatever the interleaving: at most one holder per lock, the word set exactly while held, no panic, interrupts off on any CPU that holds a lock or is inside the lock code |
| Spinlock.FlagRestored | kernel/sched/percpu.c:367-393 | from leaving depth 0 to coming back, the interrupt flag ends as the first `pushcli` saw it |
| Spinlock.AcquireIs | kernel/sync/spinlock.c:15-30 | acquiring a free lock: the caller has it and is out of the call, the word set, interrupts off, one level deeper; nothing else changes |
| Spinlock.AcquireSpins | kernel/sync/spinlock.c:22-23 | acquiring a taken lock: the caller gains nothing and stays in the loop |
| Spinlock.ReleaseIs | kernel/sync/spinlock.c:32-49 | releasing a lock one holds: the caller is out of the call without it, the word clear, one level less deep, interrupts on exactly if that was the last level and they were on before; nothing else changes |
| Spinlock.AcquireRelease | kernel/sync/spinlock.c:15-49 | the two in a row leave words, locks, depth and interrupt flag as they were |
| Spinlock.QueryIs | kernel/sync/spinlock.c:51-57 | `holding_spinlock` answers whether the word is set and changes nothing |
| Spinlock.OthersDoNotMatter | kernel/sync/spinlock.c:32-49 | a CPU that neither exchanges nor queries ends up where its own steps alone take it, whatever other CPUs do in between |
| Spinlock.ReleaseAmidOthers | kernel/sync/spinlock.c:32-49 | so a holder's release gets through under every interleaving |
| Spinlock.SpinAmidOthers | kernel/sync/spinlock.c:15-30 | under every interleaving a waiting CPU either has the lock and is out of the call or has gained nothing and waits |
| Spinlock.SelfDeadlock | kernel/sync/spinlock.c:15-30 | acquiring a lock one holds never succeeds in any later run |
| Spinlock.StrayReleaseIs | kernel/sync/spinlock.c:32-57 | a release by a CPU that does not hold the lock returns exactly if the word was set and the CPU holds another lock, else panics; the word ends clear either way |
| Spinlock.StrayRelease | kernel/sync/spinlock.c:32-57 | after a stray release of a held lock, whether it returned or panicked, another CPU can take the lock while the holder still has it |
| Digits.NumeralRoundTrip | kernel/lib/src/str_utils.c:45-63 | evaluating the written digits gives the number back, for every number and radix |
| Digits.NumeralDigits | kernel/lib/src/str_utils.c:45-63 | only digits of the radix, no leading zero except for 0 |
| Digits.NumeralWrites | kernel/lib/src/str_utils.c:45-63 | digits of the radix, letters in the case asked for, worth the number, no leading zero |
| Digits.NumeralUnique | kernel/lib/src/str_utils.c:45-63 | there is only one such text |
| Digits.NumeralLength | kernel/lib/src/str_utils.c:113-116 | a 64-bit number has at most 64 digits, so the local buffer suffices |
| Digits.DocumentedRadix | kernel/lib/include/str_utils.h:75-85 | for the documented radixes 2 to 36, the output reads back in the radix asked for exactly up to radix 16 or for numbers below 10 |
| Digits.RadixThirtySix | kernel/lib/src/str_utils.c:46 | 35 in radix 36 comes out as the digits 35, which read as 113 |
| NumberFormat.ReverseStr | kernel/lib/src/str_utils.c:15-23 | reverses the first n characters in place and touches no other |
| NumberFormat.DigitsBackwards | kernel/lib/src/str_utils.c:51-58 | the digit loop, least significant first |
| NumberFormat.Utoa64 | kernel/lib/src/str_utils.c:45-63 | writes the numeral and a terminating zero and touches nothing beyond |
| NumberFormat.Itoa64 | kernel/lib/src/str_utils.c:65-92 | a minus sign in radix 10, two's complement otherwise, the smallest integer included |
| NumberFormat.ItoaIs | kernel/lib/src/str_utils.c:65-92 | a minus and the magnitude in radix 10, the 64-bit pattern otherwise, in lower case |
| NumberFormat.ItoaRoundTrip | kernel/lib/src/str_utils.c:65-92 | reading `itoa64`'s output back |
| NumberFormat.FormatUnsigned | kernel/lib/src/str_utils.c:113-184 | the buffer holds blanks, radix mark, zeros, digits and blanks, each as flags, width and precision ask, then a zero |
| NumberFormat.FormatSigned | kernel/lib/src/str_utils.c:186-257 | the same with a sign: minus, plus, blank or none |
| NumberFormat.LayoutLength | kernel/lib/src/str_utils.c:134-152 | the length is exactly the larger of the width and sign or prefix plus the larger of digit count and precision |
| NumberFormat.LayoutCore | kernel/lib/src/str_utils.c:147-180 | blanks on one side only, and which; how many zeros |
| NumberFormat.UnsignedIs | kernel/lib/src/str_utils.c:113-184 | that shape for every number, radix and flags: which mark, how many zeros and blanks, on which side |
| NumberFormat.SignedIs | kernel/lib/src/str_utils.c:186-257 | the same with the sign |
| NumberFormat.MarkShown | kernel/lib/src/str_utils.c:117-131 | the output without its blanks starts with the mark of the radix when one is due, and is all digits when none with a letter is |
| NumberFormat.UnsignedRoundTrip | kernel/lib/src/str_utils.c:113-184 | trimming blanks and radix mark and evaluating gives the number back, for all flags, widths, precisions and radixes |
| NumberFormat.SignedRoundTrip | kernel/lib/src/str_utils.c:186-257 | the same for every signed 64-bit number |
| Terminal.Tty.constructor | kernel/tty/tty.c:46-55 | a fresh terminal shows blank paper |
| Terminal.ColorsReadBack | kernel/tty/tty.c:89-95 | both colors can be read back from a cell |
| Terminal.Tty.CopyRow | kernel/tty/tty.c:102-104 | one row moves up, nothing else changes |
| Terminal.Tty.ShiftRows | kernel/tty/tty.c:101-105 | every row takes the contents of the next |
| Terminal.Tty.ClearLastRow | kernel/tty/tty.c:106-108 | the last row is blank and the others unchanged |
| Terminal.Tty.Scroll | kernel/tty/tty.c:100-111 | the view moves down one row of the same paper |
| Terminal.Tty.Putchar | kernel/tty/tty.c:117-130 | every cell and the cursor afterwards: the character with its colors at the cursor, a row scrolled off first if the cursor was below the screen; the paper grows accordingly; every write is in bounds |
| Terminal.Tty.Print | kernel/tty/tty.c:132-139 | the buffer is the view of the paper after any text, and every character still in view is in the cell of its row and column |
| Terminal.Console.SetTty | kernel/tty/tty.c:61-69 | a terminal number out of range is ignored |
| Terminal.Console.Print | kernel/tty/tty.c:132-139 | the same on the active terminal; no other terminal changes |
| Terminal.ViewIs | kernel/tty/tty.c:117-130 | where any text leaves the view of a fresh terminal, in closed form |
| Terminal.TypedIs | kernel/tty/tty.c:117-130 | one character takes one cell and is in it with both colors; a newline leaves blanks to the end of the row |
| Terminal.TypedAt | kernel/tty/tty.c:117-130 | every character of a text is on the paper at the cursor it was typed at |
| Terminal.RestIsBlank | kernel/tty/tty.c:117-130 | and every other cell of the text is blank |
| Terminal.CursorRuns | kernel/tty/tty.c:126-128 | without newlines the cursor advances one cell a character |
| Terminal.CursorAfterNewline | kernel/tty/tty.c:120-122 | after a newline a character stands in the next row, as many columns in as there are characters between |
| Terminal.PaperIsText | kernel/tty/tty.c:132-139 | on a fresh terminal a text without newlines is the paper, character for character |
| Terminal.PaperGrows | kernel/tty/tty.c:117-130 | text once typed never changes |
| Terminal.PrintsCompose | kernel/tty/tty.c:132-139 | printing in two calls is printing in one |

## Left out

- KernelMemory.Kernel.Kinit: the pages it frees are neither free already nor tables.
- KernelMemory.Kernel.Kvminit: false stands for never returning. When the address would wrap, the model returns at once.
- KernelMemory.Kernel.MapMmio: an entry holds 36 bits of frame number, so "itself" is modulo 2^48.
- KernelMemory.Kernel.CountPages: its loads are by frame, not by address.
- Boot.BootMemory: the kernel image lies in the managed memory; until `kinit` and `kvminit` are done, accesses are by frame.
- MemoryClient.Run: nothing is concluded past a call that takes a page of the kernel away, because the code uses those pages through their own mappings; `MemoryClient.Misdirect` shows why.
- ProcSched.SelectIs: no process is listed twice and no thread is listed twice in its process; with duplicates the loops, which compare entries, may stop early.
- SchedModel.BalancePair: no counter has reached 2^32 - 1, the value the scan starts from. Counters are unbounded in the model, so their own wrap-around is not modelled.
- SmpSched.Scheduler.Run: each call is atomic. `sched_lock` does not cover `sched_get_next`, `sched_exit` and the scans, and races between CPUs inside a call are not modelled.
- ThreadRing.Ring.Push: a list node is always available; the source does not check the result of `kalloc` there.
- NumberFormat.FormatUnsigned: lengths are unbounded integers; the source's `int` arithmetic agrees whenever the output fits a buffer of less than 2^31 characters.
- Spinlock.ReachableIsSafe: `pushcli` and `popcli` are single steps, since they touch only the CPU's own state; an interrupt between reading the flags and `cli` is not modelled, nor is memory ordering.
- Translation caches, the accessed and dirty bits the hardware sets, and `invlpg`.
- `map_apic_region` and `map_low_memory`, which repeat the `kvminit` loop for fixed regions, and the boot steps between `kvminit` and the second `kinit`.
- `pop_thread_list` and `pop_proc_list`: nothing that is modelled uses them.
- The mutex: with a waiter its release does not free the lock, and the woken thread panics.
- `format_string`, the printf argument loop, `clear_current_tty`, the VGA copy and `set_fg`/`set_bg`: easy members, or plumbing.
- Thread creation, context switching, the timer, ACPI, APIC, interrupt tables, serial output and logging.
