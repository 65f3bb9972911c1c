# A model of the JOS kernel (jos-lab4)

This project models the part of the lab 4 kernel on which everything else rests, and proves what it is there for:

* **Virtual memory** (`kern/pmap.c`, the address macros): physical pages on an intrusive free list with 16-bit
  reference counts, and two-level x86 page tables that are changed in place.  `VmState` holds the state as a value
  (`Vm`) and the invariant `Inv`; `VmAlloc`, `VmPaging`, `VmSpaces` say what each operation does to that value and
  prove that it keeps the invariant; `Pmap.MemoryManager` is the code itself, in place on arrays, each method proved
  to do exactly what its value function says.  A directory and its tables refine the map `UserMap` from (address
  space, page) to page table entry: page_insert is a map update, page_remove a deletion, check_va2pa the lookup.
  `VmRuns` proves over all runs that every reference count is exact and the free list holds each free page once.
* **Environments** (`kern/env.c`): `VmFree`, `VmRegion` and `VmLoad` are the loops of env_free, region_alloc and
  load_icode; `ElfFile` says what they leave in terms of the fields of the ELF file; `VmCalls` is what system calls do to address spaces (`VmAbove`: at and above UTOP); `KernelState` joins
  memory, the environment table and the CPUs in one value with the invariant `Good`; `EnvCode.EnvManager` is the code
  in place.  `EnvIds` is the arithmetic of generation-stamped ids.
* **Scheduling and several CPUs** (`kern/sched.c`, `kern/trap.c`, `kern/init.c`): `Sched` has the probe sequence and
  its number theory; `Smp` is the machine of several CPUs under the big kernel lock, with its safety invariant over
  all runs.  The methods of `EnvManager` are proved to take exactly the steps of that machine (env_alloc by
  `KernelState.AllocEnvIsCreate`; load_icode is no step), and `KernelState.HandOverIsGood` carries what one CPU leaves
  over to the next CPU that takes the lock.
* **Debug tables** (`kern/kdebug.c`): `Kdebug`.  **Start of memory** (`page_init`, `boot_alloc`, the list partition):
  `PageList`, `VmInit`, `BootAlloc`.  **Kernel mappings** (`boot_map_region`, `mmio_map_region`): `VmKernelMap`.
* **Library** (`lib/printfmt.c`, `lib/string.c`): `Printfmt`, `Vprintfmt`, `Strtol`, `MemMove`; `Escapes` says what each
  escape of a format prints, from the text of the escape and its arguments alone.

How to read the memory model.  `Vm.mem` is physical memory as rows of 1024 words, `Vm.data` the same frames as 4096
bytes.  The two views are kept apart: page tables are words, program pages are bytes, and no frame is ever both
(`Kind`).  `Vm.kind` and `Vm.fl` are bookkeeping that the code does not have: what each frame is in use for, and the
free list from its end to its head.  A frame is `Held` between page_alloc and its first mapping.  `Vm.cr3`, `Vm.cur`
and `Vm.tlb` are the directory in force, curenv's directory and the translation cache of the CPU that executes.

Panics of the kernel, and page faults in it, are results `false` or none.  Taking the kernel lock is atomic.

Where a promise of the code or of its comments fails, a lemma says so, and when it holds:

* page_remove at an unmapped page is documented to do nothing.  It does nothing exactly when the page has no page
  table; otherwise it drops a reference of physical page 0 (`VmPagingProofs.RemoveUnmapped`).  page_insert and
  env_free test first; sys_page_unmap does not: two calls put page 0 on the free list
  (`VmCalls.TwoCallsFreePageZero`).
* sys_page_map and sys_ipc_try_send are documented to return -E_INVAL for a source page that is not mapped.  If that
  page has a page table, page_lookup names physical page 0 for it, and unless sys_page_map is asked for PTE_W they map
  page 0 at the target (`VmCalls.UnmappedShowsPageZero`, `VmCalls.TwoCallsShowPageZero`).
* sys_ipc_try_send is documented to transfer no page if the receiver asked for none, by an address at or above UTOP.  It
  does not look at that address, and page_insert writes into the tables that all address spaces share, or into the
  directory (`VmCalls.SentUnasked`); the invariant survives that exactly if the entry named the page already, or no
  table is to be had (`VmAbove.InsertAbove`).
* sys_page_alloc is documented to refuse any bits of perm but a few.  It tests the low 12 only; the others are or-ed
  into the frame number of the entry (`VmCalls.FillShows`).  Which calls keep the invariant, told by the state before
  them, is `VmCalls.Keeps`, an if and only if by `VmCalls.CallKeeps`.
* region_alloc is documented to panic if any allocation fails.  It does not look at what page_insert returns; it can
  only miss the failure for the last page, as after that nothing is free.  For a range with nothing mapped that happens
  if and only if exactly one page is missing and the last page is the first to need its page table
  (`VmRegion.RegionAlloc`, `VmRegion.SlackSteps`).
* The comment on UVPT in `inc/memlayout.h` names the wrong byte address for the page directory
  (`VmSpaces.SelfMapShowsDirectory`).
* The header of stab_binsearch says that left > right at the end means an address in no entry.  That is so in any
  table.  debuginfo_eip relies on the converse, which fails: in any table left > right exactly if there is no entry of
  the type at all (`Kdebug.LeftAboveRight`).  So debuginfo_eip finds a line where its comment asks for -1
  (`Kdebug.LineIfFound`, `Kdebug.LineAboveIsFound`).  The search also misleads when an entry lies one above the address
  sought (`Kdebug.AdjacentEntriesMislead`); where it then ends is `Kdebug.SearchClimbs`, and when that is right,
  `Kdebug.SearchIsRightIff`.
* page_init excludes a hole of 93 pages, not 96 (`PageList.HoleExcluded` says exactly when this is enough), and
  boot_alloc panics for want of memory exactly for requests beyond all of memory: it does not count what it handed out
  (`BootAlloc.PanicIsExact`, `BootAlloc.Overcommits`), and lets through requests that make its pointer wrap
  (`BootAlloc.BootAllocator.Alloc`).
* mmio_map_region is asked to handle a reservation beyond MMIOLIM and has no test; what lies there keeps its mappings
  if and only if the region ends before it or agrees with them (`VmKernelMap.MmioLimit`).
* sys_page_alloc loses a page for good exactly if it takes the last one and then lacks another for the page table
  (`VmCalls.CallKeeps`); if no call into a program's space does, env_free gives every page back
  (`KernelState.ProgramReturnsPages`).
* pgdir_walk, asked to make a table above UTOP in an environment's directory, makes it differ from kern_pgdir, and
  that is the only case that breaks the invariant (`VmPaging.PgdirWalkKeepsInv`, `VmPaging.TableAboveBreaks`).
* Probing by 1, 2, 3, ... reaches every slot exactly when their number is a power of two
  (`Sched.ReachesAllIffPowerOfTwo`).
* A system call that sets the status of an environment running on another CPU, or destroys one that is already
  DYING, breaks the safety of the machine, and nothing else does (`Smp.StepKeepsSafe`, `Smp.SetStatusRunsTwice`,
  `Smp.SecondDestroyFreesInUse`).
* A negative number that was printed with space padding cannot be read back (`Printfmt.RoundTripNegative`).
* The flag '-' of a format is commented as padding on the right.  For strings it is that, with spaces; numbers are padded
  on the left all the same, with minus signs (`Escapes.WidthAndZeros`, `Escapes.TextEscape`).

## Model

| member | source | states |
|---|---|---|
| Mmu.PgAddrRoundTrip | jos-lab4/inc/mmu.h:29-42 | PGADDR and PDX, PTX, PGOFF are inverse to each other, in both directions |
| Mmu.PageOfIsPageNumber | jos-lab4/inc/mmu.h:29-36 | two addresses are in one page of the two-level scheme exactly if PGNUM agrees; below UTOP means a slot below PDX(UTOP) |
| Mmu.RoundUpIsLeast | jos-lab4/inc/types.h:64-68 | ROUNDUP in 32 bits is the least multiple of PGSIZE not below its argument, exactly up to 0xFFFFF000; above, it wraps to 0 |
| Mmu.OrBits | jos-lab4/kern/pmap.c:791 | a bit of an or is set exactly if it is set in one of the two |
| VmAlloc.HeadIsFree | jos-lab4/kern/pmap.c:540-549 | page_free_list is NULL exactly if no frame is free, and otherwise its first page is free and unreferenced |
| VmAlloc.AllocKeepsInv | jos-lab4/kern/pmap.c:533-563 | page_alloc keeps the invariant and every translation, fails exactly when no frame is free, and hands out a free frame with count 0, zeroed if any flag is set |
| VmAlloc.FreeKeepsInv | jos-lab4/kern/pmap.c:569-587 | page_free of a held page keeps the invariant and every translation |
| VmAlloc.AllocThenFree | jos-lab4/kern/pmap.c:533-587 | page_free right after page_alloc restores the whole state |
| VmAlloc.OnlyLeavesAreMapped | jos-lab4/kern/pmap.c:749-794 | no free, held, table or directory page is mapped below UTOP in any address space |
| Pmap.MemoryManager.PageAlloc | jos-lab4/kern/pmap.c:533-563 | the in-place code computes the value function, fails exactly when nothing is free, keeps the invariant and all translations |
| Pmap.MemoryManager.PageFree | jos-lab4/kern/pmap.c:569-587 | in place, puts the page in front of the free list; keeps the invariant for a held page |
| Pmap.MemoryManager.PageDecref | jos-lab4/kern/pmap.c:593-598 | in place, one reference less, and freed exactly at 0 |
| VmPaging.PgdirWalkKeepsInv | jos-lab4/kern/pmap.c:622-677 | pgdir_walk, for any directory and address, keeps every translation and fails, changing nothing, exactly if the table is missing and may not or cannot be made; else it returns the table behind that slot; the invariant is kept if and only if it makes no table above UTOP in an environment's directory |
| VmPaging.TableAboveBreaks | jos-lab4/kern/pmap.c:656-674 | a table made there leaves the directory with an entry that kern_pgdir does not have |
| Pmap.MemoryManager.PgdirWalk | jos-lab4/kern/pmap.c:622-677 | the same of the in-place code |
| VmPagingProofs.InsertUpdates | jos-lab4/kern/pmap.c:749-794 | page_insert of a held or mapped page is a map update: exactly page p of space d maps pp with perm and PTE_P afterwards, no other translation of any space changes; -E_NO_MEM exactly if a table is needed and no frame is free, and then nothing changes; the invariant is kept if and only if the 16-bit count does not wrap |
| VmPagingProofs.InsertWraps | jos-lab4/kern/pmap.c:749-794 | at a count of 65535 a further mapping sets it to 0 although the page is mapped |
| VmPagingProofs.InsertPageZero | jos-lab4/kern/pmap.c:749-794 | page_insert of physical page 0, for every space and user page: unless a page table is missing and cannot be had, the page shows page 0, and the invariant is broken |
| VmPagingProofs.InsertIsExact | jos-lab4/kern/pmap.c:749-794 | both together: page_insert keeps the invariant if and only if it fails, or the page is not page 0 and its count does not wrap |
| VmPagingProofs.LookupUnmapped | jos-lab4/kern/pmap.c:862-885 | for a page that is not mapped page_lookup returns NULL if it has no page table, and physical page 0 otherwise |
| Pmap.MemoryManager.PageInsert | jos-lab4/kern/pmap.c:749-794 | the same of the in-place code, with its results 0 and -E_NO_MEM, for held and mapped pages and page 0 |
| VmPagingProofs.RemoveKeepsInv | jos-lab4/kern/pmap.c:902-937 | page_remove of a mapped page deletes exactly that mapping, takes one reference, and frees the page exactly if it was the last |
| VmPagingProofs.RemoveUnmapped | jos-lab4/kern/pmap.c:902-937 | page_remove of an unmapped page does nothing if and only if there is no page table; otherwise page 0 loses a reference, and the invariant breaks exactly if that was its last |
| VmPagingProofs.RemoveTwice | jos-lab4/kern/pmap.c:902-937 | page_remove is not idempotent, for any mapped page |
| Pmap.MemoryManager.PageRemove | jos-lab4/kern/pmap.c:902-937 | the in-place code computes the value function; a deletion if the page is mapped, nothing if it has no table |
| VmPagingProofs.MappedFacts | jos-lab4/kern/pmap.c:862-885 | for a mapped page page_lookup finds the frame its translation names, which is a leaf |
| Pmap.MemoryManager.PageLookup | jos-lab4/kern/pmap.c:862-885 | the frame of the entry, which is not tested for PTE_P, or none if there is no table |
| Pmap.MemoryManager.CheckVa2Pa | jos-lab4/kern/pmap.c:1327-1339 | exactly the lookup of the two-level map, for every page and directory |
| VmRuns.RefcountsExact | jos-lab4/kern/pmap.c:533-598 | under the invariant pp_ref is the number of user mappings plus owning directory slots plus one for an environment directory; 0 exactly for free and held pages; every free page is on the list exactly once |
| VmRuns.StepKeepsInv | jos-lab4/kern/pmap.c:533-937 | every operation on memory keeps the invariant |
| VmRuns.RunKeepsInv | jos-lab4/kern/pmap.c:533-937 | so does every run of operations of any length, of pmap.c, env_setup_vm and env_free |
| VmInit.PageInitEstablishesInv | jos-lab4/kern/pmap.c:462-515 | the state that page_init leaves satisfies the invariant, so runs start in it |
| VmSpaces.SetupKeepsInv | jos-lab4/kern/env.c:196-263 | env_setup_vm fails, changing nothing, exactly if no frame is free; else the new directory is empty below UTOP, equals kern_pgdir above except at UVPT, where it is itself; no other space changes |
| VmSetup.SetupDir | jos-lab4/kern/env.c:196-263 | the in-place code, with its copying loop, computes that |
| VmSpaces.SelfMapShowsPte | jos-lab4/inc/memlayout.h:149-162 | in every address space, reading UVPT + 4*PGNUM(va) reaches the very word of va's page table entry if va has a page table, and faults otherwise |
| VmSpaces.SelfMapShowsDirectory | jos-lab4/inc/memlayout.h:160-166 | the directory itself is at UVPT + 4*(UVPT >> PGSHIFT); at the byte address of the comment there is another page table |
| VmSpaces.DropTableKeepsInv | jos-lab4/kern/env.c:595-597 | releasing an emptied page table keeps the invariant and every mapping and frees its frame |
| VmSpaces.DropDirKeepsInv | jos-lab4/kern/env.c:600-603 | releasing an emptied directory keeps the invariant and every mapping and frees its frame |
| VmFree.UnmapTable | jos-lab4/kern/env.c:589-593 | the inner loop of env_free leaves nothing mapped by that table, by page_remove steps at pages of that slot and nothing else |
| VmFree.ClearSpace | jos-lab4/kern/env.c:577-598 | the loops of env_free leave the directory empty below UTOP |
| VmFree.FreeSpace | jos-lab4/kern/env.c:562-603 | what env_free does to memory is a run of releasing steps on that address space alone; it ends with every frame in exactly the use that TornDown gives it and the cache in step |
| VmFree.OtherDirsStay | jos-lab4/kern/env.c:562-603 | no run on one address space creates or releases the directory of another |
| VmTeardown.StepTouches | jos-lab4/kern/pmap.c:749-937 | a step on one address space changes no mapping of any other, and no use of a page as their table or directory |
| VmTeardown.RunTouches | jos-lab4/kern/pmap.c:749-937 | the same for runs of any length |
| VmTeardown.SharedPagesSurvive | jos-lab4/kern/env.c:562-609 | when an address space is torn down each page keeps exactly the count of its mappings elsewhere, stays in use exactly if there are any, and otherwise is free, unless a caller holds it |
| VmTeardown.RunSameHeld | jos-lab4/kern/env.c:577-603 | the steps of env_free take no page: the frames held by callers are the same before and after |
| VmTeardown.ReleasedIsTornDown | jos-lab4/kern/env.c:562-603 | after env_free the directory, its page tables and the pages mapped nowhere else are free and on the list exactly once; every other frame keeps its use, shared pages the count of their other mappings, and no other mapping changes |
| VmTeardown.SpaceRoundTrip | jos-lab4/kern/env.c:196-609 | env_setup_vm, any work on that space, and its release restore every mapping, use and count; the free pages too, each once, if and only if callers hold the same pages as before (what each operation holds back is stated by VmTeardown.RunSameHeld, VmRegion.RegionAlloc, VmCalls.CallRunKeeps) |
| VmTeardown.RoundTrip | jos-lab4/kern/env.c:196-609 | the same for any run of steps in between |
| VmTlb.RemoveCoherent | jos-lab4/kern/pmap.c:922-949 | after page_remove every cached frame agrees with the directory in force if and only if the page was not cached for that directory or the flush was not skipped |
| VmTlb.InsertCoherent | jos-lab4/kern/pmap.c:768-794 | the same after page_insert; re-inserting the same page needs no flush |
| VmTlb.RemoveSeenElsewhere | jos-lab4/kern/pmap.c:902-949 | no CPU tells another to flush: after page_remove the cache of another CPU agrees with its directory if and only if it runs on another directory or has not cached the page |
| VmTlb.InsertSeenElsewhere | jos-lab4/kern/pmap.c:749-794 | the same after page_insert; not when it only changes permissions |
| VmTlb.UpdatedCoherent | jos-lab4/kern/pmap.c:943-949 | exactly when a cache survives one changed translation |
| VmTlb.OthersKeepCoherent | jos-lab4/kern/env.c:568-572 | changes to a directory that is not in force leave the cache in step |
| VmRegion.AddPageAdds | jos-lab4/kern/env.c:375-383 | one turn of region_alloc maps a zeroed page that is mapped nowhere else, and changes no other page of any space |
| VmRegion.AddPageFails | jos-lab4/kern/env.c:375-383 | a turn whose page_insert fails is not noticed: no mapping changes and one page stays held |
| VmRegion.StuckPanics | jos-lab4/kern/env.c:378-381 | a turn panics exactly if no page is free, changing nothing; so the turn after a failed page_insert panics |
| VmRegion.SlackSteps | jos-lab4/kern/env.c:375-383 | one turn: with enough free pages for the rest it maps its page; then it spends no more than one page and, if missing, one page table, exactly that if nothing was mapped; if it does not map it, the loop ends without a panic exactly if this was the last page and just one page is missing |
| VmRegion.RegionAlloc | jos-lab4/kern/env.c:352-388 | every page that [va, va+len) touches becomes a zeroed private writable page, and none is held back, if there are free pages for them and their tables; whenever it returns, all do but perhaps the last; if nothing was mapped there, it returns if and only if there are enough free pages, or just one is missing and the last page is the first in a slot without a table, and then exactly the last page is missing; no other page of any space changes, nor registers, nor the other directories |
| VmLoad.PutByteChangesOne | jos-lab4/kern/env.c:499-505 | a byte stored to a private page is the only byte that changes, over all address spaces |
| VmLoad.WriteBytes | jos-lab4/kern/env.c:499-505 | memcpy and memset through the page directory in force change exactly the bytes of the range |
| VmLoad.WritesMakeImage | jos-lab4/kern/env.c:496-505 | file part and zero part together are the segment: file bytes on [va, va+filesz), zeros on [va+filesz, va+memsz) |
| VmLoad.LoadSegment | jos-lab4/kern/env.c:487-506 | after one segment its image is in memory and no byte and no mapping outside its pages has changed |
| VmLoad.ImageGrows | jos-lab4/kern/env.c:483-507 | a further segment leaves the images of the earlier ones in place |
| VmLoad.LoadSegments | jos-lab4/kern/env.c:478-507 | after the loop the images of all segments, as SegmentAt reads their headers, are in memory, and no byte and no mapping of any space outside their pages has changed; given enough free pages it succeeds; ElfFile.ReadsBack says which bytes of the file the headers are |
| VmLoad.IcodeIsLoaded | jos-lab4/kern/env.c:412-524 | the steps of load_icode put together: all images in place at the end, stack page mapped and zeroed, or unmapped because nothing is free; outside the image and the stack page no byte and no mapping of any space, the new one included, has changed; registers as before; ElfFile.IcodeIsPlaced says it in the numbers of the file |
| VmLoad.LoadImage | jos-lab4/kern/env.c:412-524 | the code of load_icode does that, gives cr3 back, and succeeds with a mapped stack page, holding no page back, whenever the magic number is right and there are enough free pages |
| ElfFile.ReadsBack | jos-lab4/inc/elf.h:6-33 | a file whose first bytes encode the magic number, e_entry, e_phoff and e_phnum, and whose program headers encode eight words each, least byte first and in the order of the two structs, is read as saying just that: type, offset, address, p_filesz and p_memsz of every header |
| ElfFile.SoundIsValid | jos-lab4/kern/env.c:478-507 | what load_icode takes for granted, in terms of those numbers: exactly the segments inside the file, p_filesz not above p_memsz, below the stack page, without a common page |
| ElfFile.IcodeIsPlaced | jos-lab4/kern/env.c:478-524 | for each header of type 1 load_icode leaves the file's bytes from p_offset on at [p_va, p_va+p_filesz), and zeros at [p_va+p_filesz, p_va+p_memsz) |
| ElfFile.EnoughIsRoom | jos-lab4/kern/env.c:352-524 | two free pages for each page that the program's headers touch, and two more for the stack, are enough for load_icode to succeed |
| VmCalls.CallKeeps | jos-lab4/kern/syscall.c:214-462 | sys_page_alloc, sys_page_map, sys_page_unmap and the page transfer of sys_ipc_try_send, on any spaces and for all arguments that pass the tests of ids, addresses and alignment that the code makes: the invariant is kept if and only if the state before the call is one of those that Keeps describes; then no space but the target is touched, and a page is held back if and only if it is sys_page_alloc with one free page left and no page table |
| VmCalls.CallRunKeeps | jos-lab4/kern/syscall.c:214-462 | runs of such calls: the invariant holds at the end if and only if every call was one that keeps it; then pages are held back exactly if some call does so, and calls on one space touch no other |
| VmCalls.CallSteady | jos-lab4/kern/syscall.c:214-462 | a call that keeps the invariant keeps registers, other directories, and the cache in step where the flush is not skipped |
| VmCalls.FillShows | jos-lab4/kern/syscall.c:226-255 | what sys_page_alloc maps: the free page, all zeros, or-ed with the bits of perm above the low 12, present and with the low bits of perm |
| VmCalls.ShareMaps | jos-lab4/kern/syscall.c:330-349 | from a mapped page: sys_page_map changes nothing if PTE_W is asked for and the source entry lacks it, nor for want of a page for a page table; otherwise, unless the count wraps, the target entry names the frame of the source, is present and has the permissions asked for, and no other page of that space is mapped differently; sys_ipc_try_send maps without the test of PTE_W |
| VmCalls.ShareIsExact | jos-lab4/kern/syscall.c:333-456 | sys_page_map and the transfer of sys_ipc_try_send keep the invariant if and only if they are refused, or there is no page table for the target to be had, or the source page is mapped and its count does not wrap, for a target below UTOP; VmAbove.InsertAbove says which others do |
| VmCalls.DropIsExact | jos-lab4/kern/syscall.c:356-384 | sys_page_unmap keeps it if and only if the page is mapped, or has no page table, or the count of physical page 0 is not 1 |
| VmCalls.UnmappedShowsPageZero | jos-lab4/kern/syscall.c:330-345 | a call to map from a page that is not mapped but has a page table: the target shows page 0, where -E_INVAL is promised |
| VmCalls.TwoCallsShowPageZero | jos-lab4/kern/syscall.c:330-345 | two calls that lead there in any space with an empty first slot and two free pages |
| VmCalls.TwoCallsFreePageZero | jos-lab4/kern/syscall.c:356-384 | two calls that put page 0 on the free list, where unmapping nothing is to do nothing |
| VmCalls.SentUnasked | jos-lab4/kern/syscall.c:440-457 | a page sent to a receiver that gave an address at or above UTOP: its entry is written, where none is to be |
| VmAbove.InsertAbove | jos-lab4/kern/pmap.c:749-794 | page_insert at or above UTOP into the space of an environment, for every address: it keeps the invariant if and only if it fails for want of a page table or the entry, in a table that all spaces share, named the page before |
| EnvIds.IdsCycle | jos-lab4/kern/env.c:288-292 | every id handed out is positive with its slot as ENVX, and the generations run through 1 to 2^19-1 in a cycle, under 32-bit wrap |
| EnvIds.SameIdIffFullCycle | jos-lab4/kern/env.c:288-292 | two allocations of a slot share an id exactly if they are a multiple of 2^19-1 apart |
| EnvIds.SlotsDiffer | jos-lab4/inc/env.h:12-30 | ids of different slots differ, whatever their generations |
| KernelState.InitialIsGood | jos-lab4/kern/env.c:124-163 | the state env_init leaves satisfies the invariant between environments, memory and CPUs |
| KernelState.AllocEnvAgrees | jos-lab4/kern/env.c:273-343 | env_alloc keeps that invariant; -E_NO_FREE_ENV exactly if no slot is free, -E_NO_MEM only without a free page, both changing nothing; else a free slot becomes RUNNABLE with its next id, the given parent, run count and entry point 0 and an empty address space, no other environment or mapping changes, and other CPUs see just the new status |
| KernelState.AllocEnvIsCreate | jos-lab4/kern/env.c:273-343 | env_alloc is the machine's Create step |
| KernelState.ChildIsAllowed | jos-lab4/kern/env.c:79-115 | env_alloc for the current environment, as sys_exofork calls it, then envid2env of the new id: it names the new slot alone, and of all live environments just the creator and the child itself may act on it |
| KernelState.CreatedIsAlone | jos-lab4/kern/env.c:288-299 | an environment made with parent 0, as env_create does, may be acted on by itself alone |
| KernelState.FreedEnvAgrees | jos-lab4/kern/env.c:561-609 | env_free keeps it, and is the machine's FreeEnv |
| KernelState.RunKernelIsGood | jos-lab4/kern/env.c:671-725 | env_run keeps it, leaves the cache in step, counts one more run, modulo 2^32, for the environment run and none for any other, and is the machine's RunEnv |
| KernelState.HaltKernelIsGood | jos-lab4/kern/sched.c:222-265 | sched_halt keeps it and is the machine's Halt |
| KernelState.YieldKernelIsGood | jos-lab4/kern/sched.c:12-216 | sched_yield keeps it and is the machine's Yield, of which Smp.YieldKeepsSafe and Smp.YieldSwitches say whom it runs |
| KernelState.YieldOnlyRuns | jos-lab4/kern/sched.c:12-216 | sched_yield changes registers, statuses and run counts, and nothing else of memory or environments |
| KernelState.DyingIsGood | jos-lab4/kern/env.c:619-625 | marking an environment of another CPU as a zombie keeps it |
| KernelState.EnterIsGood | jos-lab4/kern/trap.c:436-440 | taking the kernel lock keeps it |
| KernelState.HandOverIsGood | jos-lab4/kern/trap.c:431-448 | in a safe machine, what one CPU leaves is good for any other CPU that goes on: no directory in force there was freed |
| KernelState.OnlyItsSlot | jos-lab4/kern/env.c:97-105 | the slot that ENVX picks is the only one whose live environment can have that id, and 0 is nobody's id |
| KernelState.StaleId | jos-lab4/kern/env.c:97-105 | the id of an earlier allocation names a live environment exactly if its slot is in use and was allocated again a multiple of 2^19-1 times |
| KernelState.LoadedIsGood | jos-lab4/kern/env.c:412-524 | load_icode, or any work on the memory of a live environment, whichever is current, keeps the invariant and is no step of the machine |
| KernelState.LiveFlushes | jos-lab4/kern/pmap.c:943-949 | tlb_invalidate takes effect for every directory that is in force on this CPU |
| KernelState.InsertIsGood | jos-lab4/kern/pmap.c:749-794 | page_insert into the space of any live environment, also a running one, keeps memory, environments, CPUs and the cache in agreement |
| KernelState.RemoveIsGood | jos-lab4/kern/pmap.c:902-937 | so does page_remove |
| KernelState.CallIsGood | jos-lab4/kern/syscall.c:214-462 | after a memory call into the space of any live environment memory, environments, CPUs and the cache agree if and only if Keeps holds before it; other CPUs see nothing of it |
| KernelState.CacheFillIsGood | jos-lab4/kern/pmap.c:939-949 | so does the CPU when it caches a translation of the tables in force |
| KernelState.ProgramLeavesNothing | jos-lab4/kern/env.c:273-609 | env_alloc, region_alloc or load_icode, any page operations and env_free: all mappings, uses and counts are as before, and the free pages if and only if callers hold the same pages as before |
| KernelState.ProgramReturnsPages | jos-lab4/kern/env.c:273-609 | env_alloc, load_icode with enough free pages, any memory calls into the program's own space that keep the invariant, env_free: all mappings and counts are as before, and the free list is too, up to order, if and only if no call lost a page (what a program maps into another space, that of a child say, stays there: VmTeardown.ReleasedIsTornDown) |
| KernelState.LoadThenFree | jos-lab4/kern/env.c:273-609 | without calls in between, the free list is restored without any condition |
| EnvCode.EnvManager.constructor | jos-lab4/kern/env.c:124-163 | env_init's loop builds the free list of all slots in order |
| EnvCode.EnvManager.Envid2Env | jos-lab4/kern/env.c:79-115 | 0 is curenv; else success means the one live environment with that id, if the caller may act on it, and -E_BAD_ENV means that there is no such |
| EnvCode.EnvManager.EnvAlloc | jos-lab4/kern/env.c:273-343 | the in-place code computes env_alloc's value function, keeps the invariant, stores the parent given and run count and entry point 0, and shows other CPUs just the new status |
| EnvCode.EnvManager.EnvFree | jos-lab4/kern/env.c:561-609 | the in-place code releases the address space by releasing steps on it alone: its directory, tables and own pages end on the free list, each once, everything else stays; the slot is on the list, and other CPUs see FreeEnv |
| EnvCode.EnvManager.EnvDestroy | jos-lab4/kern/env.c:617-638 | the in-place code takes exactly the machine's Destroy step; it only marks an environment that runs elsewhere, and otherwise gives back all its pages, changes no other mapping, and leaves other environments as they are but for scheduling |
| EnvCode.EnvManager.EnvRun | jos-lab4/kern/env.c:671-725 | the in-place code takes exactly the machine's RunEnv step |
| EnvCode.EnvManager.LoadIcode | jos-lab4/kern/env.c:412-524 | image, stack page and entry point are set (EnvCode.StartedAs: as the file says), everything else of the kernel is as before, and it succeeds, holding no page back, given magic number and free pages |
| EnvCode.EnvManager.EnvCreate | jos-lab4/kern/env.c:533-556 | a new environment with parent 0 that holds the program, nothing else has changed, and other CPUs see just the new status |
| EnvCode.StartedAs | jos-lab4/kern/env.c:412-556 | the environment that load_icode or env_create leaves starts at the file's e_entry and has each of its segments in memory where the file says |
| EnvCode.EnvManager.SchedHalt | jos-lab4/kern/sched.c:222-265 | the in-place code takes exactly the machine's Halt step |
| EnvCode.EnvManager.SchedYield | jos-lab4/kern/sched.c:12-216 | the in-place code takes exactly the machine's Yield step, from the slot behind the current one |
| EnvCode.EnvManager.MpMain | jos-lab4/kern/init.c:104-127 | an application processor's start is the machine's Boot step |
| EnvCode.EnvManager.Trap | jos-lab4/kern/trap.c:431-448 | entering from user mode is the machine's Trap step: a zombie is freed on the CPU that ran it, with all its pages and nothing else |
| EnvCode.EnvManager.TrapReturn | jos-lab4/kern/trap.c:468-471 | the end of trap is the machine's Leave step |
| Sched.ProbeIsTriangular | jos-lab4/kern/sched.c:123-148 | after i turns the index is start plus the i-th triangular number, modulo NENV |
| Sched.PowerOfTwoReachesAll | jos-lab4/kern/sched.c:123-148 | for a power of two the probes reach every slot |
| Sched.OddFactorMisses | jos-lab4/kern/sched.c:123-148 | with an odd factor they miss one |
| Sched.ReachesAllIffPowerOfTwo | jos-lab4/inc/env.h:28-30 | all slots are reached, from any start, exactly if their number is a power of two |
| Sched.PickIsComplete | jos-lab4/kern/sched.c:123-148 | the search finds a RUNNABLE environment whenever there is one, namely the first one probed |
| Sched.FindRunnable | jos-lab4/kern/sched.c:123-148 | the loop itself does that |
| Smp.YieldKeepsSafe | jos-lab4/kern/sched.c:12-216 | sched_yield keeps the machine safe, releases the lock exactly once or stays in the monitor, enters the monitor exactly if nothing is RUNNABLE, RUNNING or DYING, and runs the first RUNNABLE environment among slots (c + 1 + i(i+1)/2) mod NENV, i = 0, 1, ..., for the current slot c, or among i(i+1)/2 mod NENV without one |
| Smp.NextIsRun | jos-lab4/kern/sched.c:121-141 | a RUNNABLE environment in the slot behind the current one is the one that sched_yield runs |
| Smp.YieldSwitches | jos-lab4/kern/sched.c:12-216 | sched_yield changes the status of two environments at most: the one run was RUNNABLE, or is the current one and was RUNNING, and becomes RUNNING, and the former current one, if it was RUNNING, RUNNABLE |
| Smp.StepStatuses | jos-lab4/kern/trap.c:408-472 | what each step does to statuses: a switch makes the former current environment RUNNABLE again if it was RUNNING, a zombie that traps or a destroyed environment becomes free, one destroyed while it runs elsewhere a zombie, and no step changes any other status |
| Smp.DestroyKeepsSafe | jos-lab4/kern/env.c:617-638 | env_destroy keeps the machine safe if and only if the environment is not DYING already |
| Smp.ChangeKeepsSafe | jos-lab4/kern/syscall.c:139-169 | a status change keeps it safe if and only if the environment does not run on another CPU |
| Smp.TrapKeepsSafe | jos-lab4/kern/trap.c:431-448 | trap keeps it safe and frees a zombie |
| Smp.StepKeepsSafe | jos-lab4/kern/trap.c:408-472 | a step keeps the machine safe if and only if it is permitted: no status change of an environment that runs elsewhere, no second destroy |
| Smp.RunsAreSafe | jos-lab4/kern/init.c:44-68 | safety over all runs from start-up: lock held by the one CPU in the kernel, no environment current twice, no RUNNING or DYING environment without a CPU |
| Smp.SafeWhenUnlocked | jos-lab4/kern/env.c:671-725 | when the lock is free, RUNNING or DYING means current on exactly one CPU, in user mode |
| Smp.DirectoriesInForceAreLive | jos-lab4/kern/env.c:568-572 | no CPU runs on the page directory of a freed environment |
| Smp.ZombiesAreNotScheduled | jos-lab4/kern/env.c:617-638 | a DYING environment stays so until its own CPU traps, which frees it |
| Smp.SetStatusRunsTwice | jos-lab4/kern/syscall.c:139-169 | what the forbidden status change leads to: one environment on two CPUs |
| Smp.SecondDestroyFreesInUse | jos-lab4/kern/env.c:617-638 | what the second destroy leads to: a CPU on a freed directory |
| Kdebug.StepDecreases | jos-lab4/kern/kdebug.c:65-91 | the loop of stab_binsearch ends: width plus the number of entries at or above addr decreases, also where l and r stay |
| Kdebug.SearchIsLinearScan | jos-lab4/kern/kdebug.c:59-103 | on sorted entries without one right above addr the binary search ends where two linear scans end |
| Kdebug.LeftAboveRight | jos-lab4/kern/kdebug.c:23-58 | in any table, left > right at the end if and only if the region has no entry of the type, so it means an address in no entry, as the header says; the converse holds exactly if there is none or one at or below the address |
| Kdebug.SearchClimbs | jos-lab4/kern/kdebug.c:76-102 | in a sorted table with an entry at addr the search ends, whatever follows, at an entry reached from addr through consecutive values, and it is the right one if and only if its value is addr |
| Kdebug.SearchIsRightIff | jos-lab4/kern/kdebug.c:76-102 | ... and that is so if and only if no entry at addr + 1 is left to be searched where the search first meets an entry at addr |
| Kdebug.AdjacentEntriesMislead | jos-lab4/kern/kdebug.c:76-90 | with entries at addr and addr+1 it does not |
| Kdebug.StabBinSearch | jos-lab4/kern/kdebug.c:59-103 | the code computes the search, and the linear scan where that holds |
| Kdebug.LinearSearchInside | jos-lab4/kern/kdebug.c:184-213 | the nested searches stay inside the file and the function found |
| Kdebug.BinSearchInside | jos-lab4/kern/kdebug.c:184-213 | so do they in any table: a search that starts at an entry of another type ends inside its region, at its start or at an entry of the type |
| Kdebug.EipIsLinear | jos-lab4/kern/kdebug.c:184-235 | in a table in order at each level what debuginfo_eip finds is what nested linear searches find |
| Kdebug.DebugInfoEip | jos-lab4/kern/kdebug.c:114-235 | the nested searches for a kernel address, in any table that starts with a header entry, stay inside it and give the function and line that they find, or -1; in a table in order at each level these are those of the linear search |
| Kdebug.FileOfAddress | jos-lab4/kern/kdebug.c:184-189 | the file region goes from the last N_SO entry at or below the address to the next one; debuginfo_eip fails there if and only if no such entry is |
| Kdebug.FunctionOfAddress | jos-lab4/kern/kdebug.c:191-213 | the function address is the value of the last N_FUN entry of the file at or below the address, and lines are sought relative to it, up to the next such entry; if all of them lie above, the file's own entry is taken; with none, lines are sought by absolute address |
| Kdebug.LineOfAddress | jos-lab4/kern/kdebug.c:218-235 | which line that is, in terms of the table; and that it is not always -1 where the comment asks for it |
| Kdebug.LineIfFound | jos-lab4/kern/kdebug.c:218-235 | -1 is returned for want of a line at or below the address if and only if the region has no line at all or has one there |
| Kdebug.LineAboveIsFound | jos-lab4/kern/kdebug.c:218-235 | a table and an address for which it finds a line that is not there |
| PageList.FreeBelowIsExact | jos-lab4/kern/pmap.c:462-515 | the list of page_init is exactly the available pages, descending |
| PageList.PageInit | jos-lab4/kern/pmap.c:462-515 | the loop builds that list in place and sets the counts: 0 exactly for the pages on the list |
| PageList.ListedPages | jos-lab4/kern/pmap.c:462-515 | which pages are on the list, by address: not page 0, not the page at 0x7000, and none from the end of base memory to 384000 bytes (whole pages) and the kernel's extent behind it |
| PageList.HoleExcluded | jos-lab4/kern/pmap.c:462-515 | the IO hole is kept off the list if and only if base memory ends at 160 or below and the excluded pages reach 256 |
| PageList.BootMemoryExcluded | jos-lab4/kern/pmap.c:462-515 | boot-allocated memory is kept off it if and only if it ends within the excluded pages |
| PageList.SelectIsFilter | jos-lab4/kern/pmap.c:1132-1145 | the low part holds the pages below 4 MB and the high part the others, as often as the list |
| PageList.SelectKeepsOrder | jos-lab4/kern/pmap.c:1132-1145 | each part keeps the order of the list |
| PageList.PartitionIsPermutation | jos-lab4/kern/pmap.c:1132-1145 | together they are a permutation of it |
| PageList.MoveLowFirst | jos-lab4/kern/pmap.c:1132-1145 | the loop with two tail pointers builds low part then high part in place, NULL-terminated, for every acyclic list |
| BootAlloc.NextCovers | jos-lab4/kern/pmap.c:89-133 | the memory handed out lies below nextfree if and only if it ends at 0xFFFFF000 or below |
| BootAlloc.FitsIffNextDoes | jos-lab4/kern/pmap.c:89-133 | a request fits into memory if and only if the next free address behind it does |
| BootAlloc.PanicIsExact | jos-lab4/kern/pmap.c:121-129 | boot_alloc panics just when memory has run out if and only if the request exceeds all of memory or fits into the rest; for every request on machines below 4 GB |
| BootAlloc.Overcommits | jos-lab4/kern/pmap.c:121-129 | for every size of memory below 4 GB and every start behind KERNBASE a request for all of it passes the test and does not fit |
| BootAlloc.BootAllocator.Alloc | jos-lab4/kern/pmap.c:89-133 | over all sequences of calls the regions are page-aligned, behind the kernel, below nextfree and disjoint, until a request passes the test that ends above 0xFFFFF000, exactly then no longer; all of them are in memory if and only if each request fitted; 0 bytes ask for the next free address |
| BootAlloc.BootAllocator.AllThereIffNextIs | jos-lab4/kern/pmap.c:115-117 | after any calls everything handed out is in memory if and only if the next free address lies at most at its end |
| VmKernelMap.MapKernelPageMaps | jos-lab4/kern/pmap.c:690-720 | one page of a kernel region is mapped, no other kernel page, user mapping or count changes |
| VmKernelMap.BootMapRegion | jos-lab4/kern/pmap.c:690-720 | page k of va maps page k of pa for all k, with exactly the permissions given and PTE_P, if the region does not wrap, and nothing else changes |
| VmKernelMap.RegionShows | jos-lab4/kern/pmap.c:690-720 | what a mapped region means for the walk: the entry for page k names frame pa/4096 + k, is present and has the permissions given |
| VmKernelMap.MmioCovers | jos-lab4/kern/pmap.c:956-1022 | the length reserved covers the device region by whole pages, with less than a page to spare, also where ROUNDUP wraps in the last page |
| VmKernelMap.Mmio.MmioMapRegion | jos-lab4/kern/pmap.c:956-1022 | the address returned plus j translates to pa + j for all j < size, also for unaligned pa, through entries with exactly PTE_P, PTE_W, PTE_PWT and PTE_PCD; no address outside the new region translates differently, those from MMIOLIM on included if and only if the region has nothing new for them |
| VmKernelMap.MmioLimit | jos-lab4/kern/pmap.c:977-979 | a region that reaches beyond MMIOLIM leaves the mappings there as they are if and only if it gives each address the mapping that it had |
| VmKernelMap.MmioRegionsDisjoint | jos-lab4/kern/pmap.c:956-1022 | successive regions are disjoint and in order |
| Printfmt.NumberIsPaddedNumeral | jos-lab4/lib/printfmt.c:37-52 | printnum prints padding and then the numeral, without leading zeros of its own |
| Printfmt.NumberLength | jos-lab4/lib/printfmt.c:37-52 | its output has length max(width, digits), and at least one digit |
| Printfmt.NumeralIsRight | jos-lab4/lib/printfmt.c:37-52 | the digits printed are worth the number, are decimal digits or lower-case letters of the base, and start with 0 only for the number 0 |
| Printfmt.RoundTrip | jos-lab4/lib/printfmt.c:37-52 | strtol reads back what printnum printed, in bases 8, 10 and 16, with any width and zero or space padding, modulo 2^32; exactly below 2^31 |
| Printfmt.RoundTripNegative | jos-lab4/lib/printfmt.c:193-200 | a negative %d is read back if and only if it is not padded with spaces |
| Printfmt.SprintBuf.PrintNum | jos-lab4/lib/printfmt.c:37-52 | the recursive code emits exactly that text |
| Printfmt.SprintBuf.PutCh | jos-lab4/lib/printfmt.c:267-273 | the buffer holds the first characters that fit, and all are counted |
| Strtol.Strtol | jos-lab4/lib/string.c:239-284 | the loops of strtol compute value and end position |
| Strtol.ValueIsWorth | jos-lab4/lib/string.c:239-284 | for any text of blanks, a sign, a prefix that fits the base, digits of the base in either case and a first character that is none, and any base from 2 to 36 or 0: strtol returns the signed number that the digits spell, modulo 2^32, and the position of that character |
| Vprintfmt.PlainText | jos-lab4/lib/printfmt.c:94-98 | text without % is printed as it is |
| Vprintfmt.MalformedIsLiteral | jos-lab4/lib/printfmt.c:241-246 | a malformed escape, also one cut off by the end, is printed literally, and printing goes on behind it |
| Vprintfmt.FormatThenParse | jos-lab4/lib/printfmt.c:193-234 | through any single number escape strtol returns the argument |
| Vprintfmt.ErrorTextIsFormat | jos-lab4/lib/printfmt.c:166-174 | the nested printfmt calls of %e print what the model says |
| Vprintfmt.ParseEscape | jos-lab4/lib/printfmt.c:100-158 | the switch with its goto reads flags, width and precision as Parse does, and stops at the NUL; Escapes says what they do to the text |
| Vprintfmt.VPrintFmt | jos-lab4/lib/printfmt.c:84-249 | vprintfmt ends on every format and emits exactly Format, of which Escapes, PlainText and MalformedIsLiteral say what it is |
| Vprintfmt.Rewind | jos-lab4/lib/printfmt.c:242-246 | going back from a malformed escape finds its own % |
| Escapes.UnsignedEscape | jos-lab4/lib/printfmt.c:100-234 | an escape written with any '#', padding flag, width and precision in digits or as '*', and any number of 'l': %u, %o, %x print the argument modulo 2^32, or 2^64 with two 'l', in base 10, 8, 16, padded on the left to the width with spaces, zeros or minus signs; printing goes on behind it with the arguments left |
| Escapes.SignedEscape | jos-lab4/lib/printfmt.c:192-200 | the same for %d: a minus sign for negative numbers, before the padding |
| Escapes.PointerEscape | jos-lab4/lib/printfmt.c:220-227 | %p prints 0x and then the padded 32-bit number in base 16 |
| Escapes.TextEscape | jos-lab4/lib/printfmt.c:176-190 | %s prints as many characters as the precision allows, or (null), padded on the right after '-' and on the left otherwise |
| Escapes.VisibleAt | jos-lab4/lib/printfmt.c:184-188 | with '#' what is not printable shows as ?, and every other character as it is |
| Escapes.CharEscape | jos-lab4/lib/printfmt.c:160-163 | %c prints the low byte, whatever the flags |
| Escapes.PercentEscape | jos-lab4/lib/printfmt.c:236-239 | %% prints a percent sign and takes no argument of its own |
| Escapes.ErrorEscape | jos-lab4/lib/printfmt.c:165-174 | %e prints the text for the error, of either sign, or "error" and the number |
| Escapes.ErrorsAreNamed | jos-lab4/inc/error.h:6-22 | the error numbers that the calls return have the texts that belong to them |
| Escapes.WidthAndZeros | jos-lab4/lib/printfmt.c:105-133 | a format that is one number with a width: spaces, or with the flag 0 zeros, or with - minus signs fill it up on the left |
| Vprintfmt.VSnprintf | jos-lab4/lib/printfmt.c:275-290 | the buffer holds the first min(total, n-1) characters and a NUL, nothing behind it changes, and the total is returned; -E_INVAL for no buffer or no room |
| MemMove.MovedAt | jos-lab4/lib/string.c:141-169 | what a move means for each byte |
| MemMove.MoreBelow | jos-lab4/lib/string.c:149-159 | moving from the end never reads a byte already overwritten, if the destination is above |
| MemMove.MoreAbove | jos-lab4/lib/string.c:160-167 | moving from the start never does, if the destination is below or apart |
| MemMove.Memmove | jos-lab4/lib/string.c:141-205 | by bytes or by words, for every overlap, the destination ends with what the source held, and no other byte changes |

## Left out

- user_mem_check and user_mem_assert, and with them the user-address branch of debuginfo_eip: the comparison with ULIM is inverted.
- Fairness of the scheduler: triangular probing can starve an environment.  Only completeness is claimed.
- KernelState.HandOverIsGood: takes the cache of the next CPU to be in step when it takes over; no CPU tells another to flush, and `VmTlb.RemoveSeenElsewhere` says exactly when that leaves a cache out of step.
- Permissions of cached translations, and the accessed and dirty bits: coherence is about frames.
- Frames as words and as bytes at the same time: no byte is read from a page table, no word from a program page, except through UVPT.
- Runs through a reference count of 65535: pp_ref wraps there (`VmPagingProofs.InsertWraps`); runs are of steps that do not wrap it.
- The monitor, console and device drivers, interrupt controllers, GDT, IDT and TSS, inline assembly, the boot loader.
- The trap dispatch and system calls other than as steps of the machine; copy-on-write fork, IPC values and the page fault upcall.
- Struct Env fields other than id, parent, status, run count, link, directory and entry point; so the type that env_create stores.
- The lock's internals (spinlock.c): taking it is atomic.
- Formats with long or long long arguments are modelled with unbounded numbers wrapped to the width they are read with; floating point escapes do not exist.
- Kdebug.SearchIsLinearScan: needs sorted entries of the type and none right above addr (`Kdebug.SearchClimbs` says what happens without that), and that not every address from addr to the last one has an entry; with one everywhere the loop would wrap.
- Kdebug.DebugInfoEip: for kernel addresses, and tables that start with an entry that is no N_SO and in which no search raises its address beyond 32 bits; string table and argument count are left out.
- Vprintfmt.VPrintFmt: a width or precision that overflows int, %e of INT_MIN and missing arguments are undefined in C and do not occur as such here.
- VmRegion.RegionAlloc: requires va+len not above UTOP, as its caller ensures; the code itself does not check.  With too few free pages for a range in which something is mapped, whether it panics depends on which of those pages come free; only what it leaves if it returns is stated then.
- VmLoad.LoadImage: requires what load_icode assumes of a valid file: headers inside it, segments inside it, filesz not above memsz, below the stack page, no common page.
- VmKernelMap.Mmio.MmioMapRegion: there is no test against MMIOLIM in the code; what is required instead is that the region does not wrap.
- BootAlloc.PanicIsExact: with 4 GB or more, where the size of memory wraps, for requests that end at 0xFFFFF000 or below.
