# Memory manager, printer, debugger search, console and boot loader of the JOS kernel

This project models the kernel of `6.828/lab` in Dafny and proves what its code does. Source paths below are
relative to the repository's root.

**Memory manager (`kern/pmap.c`).** There are two descriptions. `AddressSpace` is the simple one: a free list, a map
from directory slots to page tables, and a flat map from virtual page to frame and flags. It has no counters; the
references of a frame are counted from the maps. `PageManager.Machine` is the kernel's: page records with a 16-bit
counter and a link, an intrusive free list, a directory and page tables made of words in physical frames, and a
translation buffer that the processor may fill, from the tables as they are, between any two calls and around each
change of an entry inside them. `Representation` says when the second describes the first, and every method of `Machine` is proved to do to the second what its specification does to the first.
`SpaceLaws` proves what then holds in every run: the counting invariant, the ownership partition, conservation, when
frames enter and leave the free list, the flat map, and coherence of the translation buffer; `Runs` carries it over to
the machine. `PageInit`, `FreeListOrder`, `CheckAlloc`, `CheckPage`, `BootMap`, `KernelMap`, `CheckKernel`,
`CheckInstalled` and `MemInit` follow `mem_init` from uninitialised page records, through all its self tests, to the
kernel address space in use. `Access` computes the access rights of a page from the words the processor reads;
`KernelSpace` says what then holds for good, which frames the kernel keeps and who may use which part of the address
space, and `BootMemory` how much memory all this takes. `KernelAddress` has the conversions of `kern/pmap.h`.

**Symbol search (`kern/kdebug.c`).** `Kdebug` has the search as a method that terminates on every table, and proves
when it finds what its comment promises.

**Printer and parser (`lib/printfmt.c`, `lib/string.c`).** `Numerals` has `printnum` and `strtol`, which undo each
other; `Printf` has the goto-driven scanner against a recursive renderer, and `Formats` and `FormatLaws` say what
formats print by reading the text back; `Memory` has both forms of `memmove` and `memset`.

**Console (`kern/console.c`) and boot loader (`boot/main.c`).** `Console` shows the text screen as a window of an
unbounded terminal, `InputBuffer` the unchecked ring buffer as an unbounded stream, `BootLoader` the loading of
segments by whole sectors.

The proofs follow the code where the code and its comments differ, and say exactly when the promise holds:

* The double-free test of `page_free` does not see the last page of the free list: `Runs.FreeTestExactly`,
  `Runs.DoubleFreeOfTail`.
* `pp_ref` is 16 bits wide, and `page_insert` keeps the counters right exactly while it does not wrap:
  `PageManager.Machine.PageInsert`. A legal run that takes it to 65535 is in `CounterWrap.CounterWraps`.
* Creating a page table does change one translation, that of the page in the virtual page table that shows the new
  table: `SpaceLaws.WalkChangesOneTranslation`.
* Re-inserting a page with other permissions does not invalidate: `SpaceLaws.PermissionCoherenceExactly`.
* The mapping of the page records drops a partial last page, so `check_kern_pgdir` passes exactly when npages is a
  multiple of 512: `CheckKernel.CheckKernPgdir`.
* `check_page_installed_pgdir` takes a page table back without invalidating anything. The buffer then is stale exactly
  if the processor has cached the page of the virtual page table that showed it:
  `CheckInstalled.CheckInstalledPgdir`.
* What memory `mem_init` needs to get through all its checks is stated exactly, in numbers:
  `BootMemory.BootableExactly`.
* The page records are mapped writable for users, though the comment at the call says read-only:
  `KernelSpace.KernelRights`. `boot_alloc` reserves half of them only: `MemInit.HalfReserved`.
* `boot_map_region` stores through a null pointer when page tables run out; its model returns `false` there, exactly
  when the free pages are fewer than the missing tables: `BootMap.BootMapRegion`.
* `stab_binsearch` bumps the address past an exact hit and may then take the next entry for it:
  `Kdebug.SearchFindsExactly`; an empty bracket does not always mean what the comment says:
  `Kdebug.EmptyBracketExactly`.
* `%d` with padding does not always read back: `FormatLaws.SignedReadsBackExactly`. The flag `-` does not pad numbers
  on the right but with dashes on the left: `FormatLaws.DashesOnTheLeft`. A precision of zero is taken for the flag
  `0`: `FormatLaws.ZeroPrecisionIsAFlag`.
* A backspace erases with its own attribute, not with that of the character: `Console.BackspaceErases`.
* The input buffer loses whole bufferfuls: `InputBuffer.FirstInFirstOutExactly`.
* `readseg` overwrites the sectors around a segment: `BootLoader.SurvivesExactly`.

Conventions: pointers to page records are page numbers, NULL is `None`. Words, counters, flags and addresses are
integers with their range in the type, and wrap-around is written out. A panic is a result (`panicked`, `None`). Shifts
and masks are division and remainder; `Mmu.EntryBits`, `Mmu.WordBits` and `Mmu.AddressBits` prove that on 32-bit words
they are the same. In the table, the main results are marked **Main**; the other rows are the steps to them.

## Model

| member | source | states |
|---|---|---|
| Mmu.SplitAddress | 6.828/lab/inc/mmu.h:29-42 | PGADDR of an address's directory index, table index and offset is the address |
| Mmu.SplitPageNumber | 6.828/lab/inc/mmu.h:29-36 | PGNUM carries exactly the two indices: PDX and PTX are its quotient and remainder, and determine it |
| Mmu.FieldsOf | 6.828/lab/inc/mmu.h:29-42 | an address built by PGADDR has the fields it was built from |
| Mmu.DecodeEncode | 6.828/lab/inc/mmu.h:58-76 | an entry word gives back frame and flags, PTE_ADDR gives the frame's address, the present bit is the lowest flag, and a present entry is not zero |
| Mmu.EntryBits | 6.828/lab/kern/pmap.c:461-468 | on 32-bit words, the entry made with shift and or is the one made with product and sum |
| Mmu.WordBits | 6.828/lab/inc/mmu.h:58-76 | on 32-bit words, shift and masks take an entry apart as quotient and remainder do |
| Mmu.AddressBits | 6.828/lab/inc/mmu.h:29-42 | on 32-bit words, the fields of an address made and taken apart with shifts are those of PGADDR, PDX and PTX |
| KernelAddress.PageRoundTrip | 6.828/lab/kern/pmap.h:65-77 | pa2page returns a page for exactly the addresses in it |
| KernelAddress.PageAddressRoundTrip | 6.828/lab/kern/pmap.h:65-83 | page2kva panics exactly for pages that do not exist, and otherwise leads back to the page |
| KernelAddress.PhysicalRoundTripExactly | 6.828/lab/kern/pmap.h:27-45 | PADDR undoes KADDR if and only if the address is in the lowest 256MB; beyond, the sum wraps without a panic |
| KernelAddress.KernelRoundTripExactly | 6.828/lab/kern/pmap.h:27-45 | KADDR undoes PADDR, neither panicking, if and only if the address is at or above KERNBASE and its page exists |
| KernelAddress.KernelAddressTranslates | 6.828/lab/kern/pmap.h:35-45 | after the kernel's mappings, the processor translates KADDR(pa) to pa |
| AddressSpace.CountDrop | 6.828/lab/kern/pmap.c:350-354 | deleting an entry lowers the count of the frame it named by one, and no other |
| AddressSpace.CountPut | 6.828/lab/kern/pmap.c:464-468 | writing an entry moves one reference from the old frame to the new one; entries at or above UTOP count for nothing |
| AddressSpace.CountTable | 6.828/lab/kern/pmap.c:389-392 | installing a page table adds one reference, to the table's frame |
| Representation.CountRemoved | 6.828/lab/kern/pmap.c:350-354 | on a removal the counter is positive before `--`, equals the reference count after, and is zero exactly when no reference is left |
| Representation.CountInserted | 6.828/lab/kern/pmap.c:464-468 | `pp_ref++` keeps counters equal to reference counts if and only if the counter is below 65535 |
| Representation.CountNewTable | 6.828/lab/kern/pmap.c:384-392 | the counter of a new page table is right after `pp_ref++` |
| Representation.PopRep | 6.828/lab/kern/pmap.c:313-325 | unlinking the head leaves a linked list of exactly the remaining pages, with a NULL link in the page taken |
| Representation.PushRep | 6.828/lab/kern/pmap.c:338-340 | linking in a page that is not on the list gives the list with that page in front |
| Representation.RepAlloc | 6.828/lab/kern/pmap.c:313-325 | handing out the first free page, cleared or not, keeps list, tables, counters and buffer right; its counter is zero already |
| Representation.ListEnds | 6.828/lab/kern/pmap.c:582-588 | following the links of the free list reaches NULL after as many steps as it has pages |
| Representation.NullLinkIsTail | 6.828/lab/kern/pmap.c:336 | a page on the list has a NULL link if and only if it is the last one |
| Representation.PushedTailNeverEnds | 6.828/lab/kern/pmap.c:333-343 | freeing the last page again closes the list into a cycle that never reaches NULL |
| Representation.RepNewTable | 6.828/lab/kern/pmap.c:384-392 | the first free page, zeroed, counted once and put in the directory, represents the walk's result: one more table, no entry, all invariants kept |
| Representation.RepDropped | 6.828/lab/kern/pmap.c:350-354 | dropping the reference before the entry is cleared keeps lists and tables right in between |
| Representation.RepCleared | 6.828/lab/kern/pmap.c:525-532 | clearing the entry deletes exactly that page from the map, and invalidating it makes the buffer coherent again |
| Representation.RepWritten | 6.828/lab/kern/pmap.c:458-470 | storing an entry on an absent page, or new flags for the same frame, updates exactly that page and cannot make the buffer name another frame |
| Representation.WalkIsTranslate | 6.828/lab/kern/pmap.c:746-758 | **Main.** the two-level walk over the words in memory finds, for every page, what the flat map says, the self-map included |
| Representation.SelfMapShowsEntries | 6.828/lab/inc/memlayout.h:147-160 | **Main.** the word at UVPT + 4*PGNUM(va) is va's own table entry, for every va whose table exists |
| Access.WordParts | 6.828/lab/inc/mmu.h:58-76 | bits 0, 1 and 2 of an entry's word are those of its flags, and its upper twenty bits are the frame |
| Access.RightsOfPage | 6.828/lab/inc/mmu.h:58-60 | what the processor allows at a page outside the virtual page table is what bits 1 and 2 of the page's own entry say, whatever table it is in |
| Access.RightsOfTable | 6.828/lab/kern/pmap.c:143-144 | the present pages of the virtual page table are readable by users and writable by nobody |
| Access.GrantedRights | 6.828/lab/kern/pmap.c:460-467 | an entry written with perm allows users if and only if bit 2 of perm is set, and writing if and only if bit 1 is |
| SpaceLaws.StepKeepsInv | 6.828/lab/kern/pmap.c:310-533 | every operation, also a failing one, keeps the invariant: free list without repeats, tables distinct and not free, nothing refers to a free frame |
| SpaceLaws.RemoveThenPut | 6.828/lab/kern/pmap.c:458-470 | removing the old page and then writing the new entry, as the code does, is one update of the map |
| SpaceLaws.StepIsFlat | 6.828/lab/kern/pmap.c:378-533 | **Main.** an insert is exactly an update of the flat map, or nothing at all when no table can be had; a remove is a delete; nothing else touches the map |
| SpaceLaws.WalkChangesOneTranslation | 6.828/lab/kern/pmap.c:378-397 | **Main.** creating a table changes the translation of no address but one, the page of the virtual page table that shows it |
| SpaceLaws.FreeListMoves | 6.828/lab/kern/pmap.c:310-533 | **Main.** a frame enters the free list if and only if its holder frees it or its last reference goes; it leaves if and only if it is the head and is handed out or becomes a table |
| SpaceLaws.Partition | 6.828/lab/kern/pmap.c:249-533 | free, held and used frames are disjoint and together are all managed frames |
| SpaceLaws.Conservation | 6.828/lab/kern/pmap.c:249-533 | their numbers add up to the number of managed frames |
| SpaceLaws.RunIsSafe | 6.828/lab/kern/pmap.c:310-533 | **Main.** after every legal run: the invariant, conservation, and no free frame is a page table or the target of a user translation |
| SpaceLaws.TranslationStable | 6.828/lab/kern/pmap.c:448-545 | an operation leaves the frame of a present translation alone unless it invalidates that page |
| SpaceLaws.StepKeepsFrameCoherence | 6.828/lab/kern/pmap.c:448-545 | one operation, with the processor caching what it likes before and after, keeps every cached frame current |
| SpaceLaws.RunKeepsFrameCoherence | 6.828/lab/kern/pmap.c:448-545 | **Main.** over every run no cached entry names a frame other than the one in the tables, hence none names a free frame |
| SpaceLaws.PermissionCoherenceExactly | 6.828/lab/kern/pmap.c:458-462 | **Main.** a buffer that agreed with the tables, permissions included, stops agreeing if and only if a cached page is re-inserted with other permissions |
| PageManager.Machine.constructor | 6.828/lab/kern/pmap.c:132-144 | the directory's frame is cleared but for the self-map slot; all other memory is as it was |
| PageManager.Machine.CachingKeepsCoherence | 6.828/lab/kern/pmap.c:536-545 | whatever translations the processor caches at any moment, pages outside a stale set stay coherent |
| PageManager.Machine.Idle | 6.828/lab/kern/pmap.c:536-545 | whatever the processor caches or drops between two calls, the buffer stays coherent |
| PageManager.Machine.LoadDirectory | 6.828/lab/kern/pmap.c:222 | loading the directory empties the buffer |
| PageManager.Machine.TlbInvalidate | 6.828/lab/kern/pmap.c:540-545 | drops the cached entry of exactly that page |
| PageManager.Machine.PageAlloc | 6.828/lab/kern/pmap.c:309-326 | hands out the first free page with a NULL link, zeroed on request and otherwise as it was; None, and no change, exactly when there is none |
| PageManager.Machine.PageFree | 6.828/lab/kern/pmap.c:332-343 | panics exactly on a non-NULL link or non-zero counter; otherwise the page is at the head, and the invariant holds if it was not free |
| PageManager.Machine.PageDecref | 6.828/lab/kern/pmap.c:349-354 | lowers that counter by one and frees the page exactly when it reaches zero |
| PageManager.Machine.PgdirWalk | 6.828/lab/kern/pmap.c:378-397 | the address of the page's entry, or None when its table is missing and is not created; a created table is the first free page, zeroed and counted |
| PageManager.Machine.PageLookup | 6.828/lab/kern/pmap.c:485-496 | the frame the flat map has for a user page, None if it has none |
| PageManager.Machine.CheckVa2pa | 6.828/lab/kern/pmap.c:746-758 | for every address, the frame address the processor would find, all ones if none |
| PageManager.Machine.AddTable | 6.828/lab/kern/pmap.c:387-393 | a missing slot gets a zeroed page as its table, or nothing changes, exactly when no page is free |
| PageManager.Machine.LoadWord | 6.828/lab/kern/pmap.c:936-938 | a read at a mapped address finds the word of the mapped frame, through the buffer as through the tables |
| PageManager.Machine.StoreWord | 6.828/lab/kern/pmap.c:941-942 | a write at a mapped address changes that word of that frame |
| PageManager.Machine.ClearEntry | 6.828/lab/kern/pmap.c:527-532 | deletes the page from the map and invalidates it, with caching possible in between |
| PageManager.Machine.PageRemove | 6.828/lab/kern/pmap.c:513-533 | **Main.** unmaps the page and frees its frame if that was the last reference, keeping counters, tables, list and buffer right |
| PageManager.Machine.StoreEntry | 6.828/lab/kern/pmap.c:416-418 | storing an entry in an existing table is an update of the flat map at that page |
| PageManager.Machine.MapNew | 6.828/lab/kern/pmap.c:467-469 | a new entry is a map update; counters stay right if and only if the page's does not wrap |
| PageManager.Machine.MapAt | 6.828/lab/kern/pmap.c:455-471 | the three cases of an insert once the table exists: new page, same page, displaced page |
| PageManager.Machine.PageInsert | 6.828/lab/kern/pmap.c:447-472 | **Main.** maps the page so that the processor finds it with exactly the rights in bits 1 and 2 of perm, displacing and possibly freeing the old one, or fails with -E_NO_MEM and no change; counters stay right if and only if the inserted page's does not wrap |
| Runs.FreeHeld | 6.828/lab/kern/pmap.c:332-343 | freeing a held page never panics and keeps the whole invariant |
| Runs.Perform | 6.828/lab/kern/pmap.c:310-533 | each legal operation on the machine does what it does to the simple form, allocation with and without zeroing, and changes the buffer only as `RunKeepsFrameCoherence` allows |
| Runs.PerformAll | 6.828/lab/kern/pmap.c:310-545 | **Main.** after any legal run, with the processor using its buffer before, between and after the calls: every counter equals the reference count, no frame is lost, every cached translation names the frame in the tables, and none below UTOP names a free frame |
| Runs.FreeTestExactly | 6.828/lab/kern/pmap.c:336-337 | **Main.** the double-free test passes for a managed page if and only if a caller holds it or it is the last page of the free list |
| Runs.DoubleFreeOfTail | 6.828/lab/kern/pmap.c:333-343 | freeing the last page twice passes the test, and the list then never ends |
| CounterWrap.CounterWraps | 6.828/lab/kern/pmap.c:464-469 | a legal run maps one page at 65535 addresses, which takes its counter to 65535; one more insert makes it wrap to 0 |
| PageInit.Init | 6.828/lab/kern/pmap.c:249-295 | **Main.** defines both fields of every record, builds exactly the stated free list and establishes the allocator's invariant; panics exactly when the records reach into the last page |
| PageInit.FreeMembers | 6.828/lab/kern/pmap.c:273-294 | the pages free at first are base memory without page 0 and every page from 1MB on that starts at or after the end of the records |
| PageInit.FreeListDescends | 6.828/lab/kern/pmap.c:273-294 | the first free list runs from the highest page down |
| PageInit.ReservedCounted | 6.828/lab/kern/pmap.c:270-288 | exactly the pages on the first free list have counter 0, so page_free panics on every other; the hole has -1, the rest 1 |
| PageInit.InitialInv | 6.828/lab/kern/pmap.c:249-295 | the first state satisfies the invariant, with every count zero |
| PageInit.FreePagesChecked | 6.828/lab/kern/pmap.c:590-599 | none of the reserved pages that check_page_free_list looks for is on the first free list |
| FreeListOrder.LowFirstPermutes | 6.828/lab/kern/pmap.c:566-579 | the partitioned list is a permutation of the old one |
| FreeListOrder.LowPrecedesHigh | 6.828/lab/kern/pmap.c:566-579 | every low page precedes every high page |
| FreeListOrder.LowFirstIsStable | 6.828/lab/kern/pmap.c:566-579 | **Main.** two pages change places if and only if the first is high and the second low, so within each class the old order is kept |
| FreeListOrder.HighExactly | 6.828/lab/kern/pmap.c:559-572 | a page is high if and only if its address is at least 4MB times the limit |
| FreeListOrder.SplitList | 6.828/lab/kern/pmap.c:569-575 | the loop over two tail cells deals the list out to two chains and writes no other record's link |
| FreeListOrder.SplitDone | 6.828/lab/kern/pmap.c:576-578 | joining the chains gives a NULL-terminated list of the low and then the high pages, also when a class is empty |
| FreeListOrder.MoveLowFirst | 6.828/lab/kern/pmap.c:566-579 | **Main.** the whole partition keeps the allocator's invariant and changes nothing but the order of the free list |
| CheckAlloc.CheckPageFreeList | 6.828/lab/kern/pmap.c:555-611 | passes if and only if no reserved page is on the list and it has pages of base and of extended memory; the partition aside, it changes only the contents of free pages |
| CheckAlloc.FreeListPassesExactly | 6.828/lab/kern/pmap.c:590-608 | the same by addresses: the pages at 0, 0xA0000, 0xFF000 and 0x100000 are not on the list, no page of extended memory is below the next free address, and both kinds are there |
| CheckAlloc.CheckPageAlloc | 6.828/lab/kern/pmap.c:617-689 | **Main.** panics exactly when fewer than three pages are free; otherwise all its assertions hold and the free list is as before, order included |
| CheckPage.CheckPage | 6.828/lab/kern/pmap.c:762-914 | **Main.** from every valid state with three free pages and slots 0 and 1 empty, all assertions of check_page hold, and the free pages at the end are those at the start, with the maps unchanged |
| CheckPage.Observe | 6.828/lab/kern/pmap.c:799-872 | what the assertions read at each point: counters, links, directory and table words, translations |
| CheckPage.MapAndRemap | 6.828/lab/kern/pmap.c:786-839 | the inserts that fail and succeed, with pp0 becoming the page table |
| CheckPage.Permissions | 6.828/lab/kern/pmap.c:822-836 | permissions are raised and lowered by inserting again |
| CheckPage.ReplaceAndRemove | 6.828/lab/kern/pmap.c:841-878 | pp1 displaces pp2, which is freed and handed out next; both mappings are removed and pp1 is freed last |
| CheckPage.TablePages | 6.828/lab/kern/pmap.c:880-903 | tables taken back by hand, and new tables zeroed though the page was filled before |
| BootMap.BootMapRegion | 6.828/lab/kern/pmap.c:409-420 | **Main.** maps the whole region, takes one free page per missing table and changes no other entry or count; it fails exactly when free pages run short |
| BootMap.LookupMapped | 6.828/lab/kern/pmap.c:409-420 | after the region, page v0+k maps to frame p0+k with the permission, and every other page is as before |
| BootMap.ProgressStep | 6.828/lab/kern/pmap.c:414-419 | a turn of the loop adds one page, and one table if it was missing, and keeps all reference counts |
| BootMap.MissingGrows | 6.828/lab/kern/pmap.c:414-416 | going one page further needs one more table exactly if that page's slot is empty |
| KernelMap.MapKernel | 6.828/lab/kern/pmap.c:185-210 | **Main.** the three mappings succeed exactly when the free pages cover the tables they need, and then the flat map is the kernel's layout and the allocator has the same frames; `KernelSpace.KernelRights` says what it allows |
| KernelMap.KernelTranslations | 6.828/lab/kern/pmap.c:185-210 | **Main.** every page translates as the layout says: physical memory at KERNBASE, stack, page records; guard range and everything below UTOP unmapped; the self-map shows the slots in use |
| KernelMap.PagesCheckExactly | 6.828/lab/kern/pmap.c:707-710 | the page records are mapped as the check expects if and only if npages is a multiple of 512 |
| CheckKernel.CheckKernPgdir | 6.828/lab/kern/pmap.c:699-739 | **Main.** the whole check, mappings, guard and directory words, passes if and only if npages is a multiple of 512 |
| CheckKernel.CheckDirectory | 6.828/lab/kern/pmap.c:721-737 | on any machine, passes if and only if every directory word has the bits the check asks for, or is zero |
| CheckInstalled.CheckInstalledPgdir | 6.828/lab/kern/pmap.c:917-956 | **Main.** panics exactly when fewer than three pages are free; otherwise all assertions hold, what is stored at a mapped address is in the page, nothing stays mapped and the same pages are free; the buffer is coherent if and only if the dropped table's page of the virtual page table is not cached |
| CheckInstalled.StaleExactly | 6.828/lab/kern/pmap.c:946-948 | clearing the slot by hand makes that one cached translation stale, and no other |
| CheckInstalled.DropTable | 6.828/lab/kern/pmap.c:946-953 | the table taken back by hand is free, with list, tables and counters right |
| MemInit.Boot | 6.828/lab/kern/pmap.c:120-234 | **Main.** from arbitrary memory contents, through all self tests, to the directory in use: gets through if and only if there is memory beyond the records, base memory beyond page 0, npages is a multiple of 512, and after the kernel's tables three pages are left, of base and of extended memory; then map, free list and buffer are as stated |
| BootMemory.BootableExactly | 6.828/lab/kern/pmap.c:120-234 | **Main.** in numbers: a multiple of 2MB; base memory besides page 0; more than 66 pages of low memory, so that base memory is left; extended memory beyond the 66 tables; three pages left in all |
| BootMemory.FirstListExactly | 6.828/lab/kern/pmap.c:566-579 | the free list after the first test, page by page: low extended memory downwards, base memory downwards, the rest downwards |
| MemInit.HalfReserved | 6.828/lab/kern/pmap.c:103-107 | the next free address of boot_alloc lies in the middle of the page records |
| KernelSpace.KernelKeepsItsFrames | 6.828/lab/kern/pmap.c:249-295 | **Main.** after mem_init and over every legal run, page 0, the hole, the kernel image, the directory and the page records, at their full size, belong to nobody else: never free, no page table, no user page; every other frame is the allocator's |
| KernelSpace.RecordsMapped | 6.828/lab/kern/pmap.c:185 | **Main.** record k, for every k below npages, is found at UPAGES + 8k, behind the records before it, in a frame that is never handed out |
| KernelSpace.RunSparesKernel | 6.828/lab/kern/pmap.c:310-533 | no legal run touches a frame the allocator does not have, or an entry at or above UTOP |
| KernelSpace.KernelRights | 6.828/lab/kern/pmap.c:118-119 | **Main.** stack and physical memory are supervisor-writable; users may write the page records, read the present virtual page table, and nothing else; above ULIM nothing is theirs |
| KernelSpace.KernelRightsStay | 6.828/lab/kern/pmap.c:118-119 | no legal run changes any right above ULIM |
| MemInit.FirstListPasses | 6.828/lab/kern/pmap.c:556-611 | the first check of the free list passes if and only if base memory has more than page 0 |
| Kdebug.StabBinsearch | 6.828/lab/kern/kdebug.c:50-94 | **Main.** terminates on every table, sorted or not, by a lexicographic measure, and returns the bracket of the recursive form |
| Kdebug.SearchFindsExactly | 6.828/lab/kern/kdebug.c:56-94 | **Main.** for every sorted table and every address, the result is the bracket of the address if and only if the search is not confused: at the first exact hit no entry one above is in the interval, and the bump does not wrap (or wraps to the right place) |
| Kdebug.SearchFinds | 6.828/lab/kern/kdebug.c:23-33 | so it is whenever the range does not have both the address and the one above it: last entry at or below it and end before the next; left end if all are above; right = left - 1 if there is none |
| Kdebug.BracketContains | 6.828/lab/kern/kdebug.c:23-33 | with an entry at or below the address, the bracket starts at one, holds no other of the type, and ends just before the next, which is above |
| Kdebug.EmptyBracketExactly | 6.828/lab/kern/kdebug.c:31-33 | **Main.** left > right says that no entry contains the address if and only if the range has none of the type or has one at or below it |
| Kdebug.NextAddressConfuses | 6.828/lab/kern/kdebug.c:75-81 | two entries at addr and addr+1: the search for addr answers with the second |
| Kdebug.FileSearchExactly | 6.828/lab/kern/kdebug.c:138-142 | the file search gives 0 if and only if no file starts at or below the address, and otherwise the last such file and the range up to the next one, which is above |
| Kdebug.FunctionSearchExactly | 6.828/lab/kern/kdebug.c:144-168 | the nested search finds the last function at or below the address inside the file; if all are above, the test lfun <= rfun still succeeds, with the file's entry |
| Kdebug.NestedSearches | 6.828/lab/kern/kdebug.c:136-168 | **Main.** both searches in a row: the function found is the last one at or below the address within the last file at or below it |
| Numerals.PrintNum | 6.828/lab/lib/printfmt.c:35-50 | writes the numeral padded on the left to the width, for every base up to 16 |
| Numerals.DigitsDenote | 6.828/lab/lib/printfmt.c:35-50 | the digits printed have the value of the number and no leading zero |
| Numerals.Strtol | 6.828/lab/lib/string.c:239-284 | blanks, sign, prefix and digits are read as the grammar says, never past the NUL |
| Numerals.ReadPrinted | 6.828/lab/lib/printfmt.c:35-50 | **Main.** strtol of the printed numeral in the same base returns the number and stops at its end, for every width with blanks or zeros |
| Numerals.ReadSignedExactly | 6.828/lab/lib/printfmt.c:190-198 | **Main.** what %d prints reads back as the number if and only if no blank separates sign and digits and no padding dash looks like a sign |
| FormatLaws.HexPrefixReads | 6.828/lab/lib/string.c:255-257 | after "0x" strtol reads hexadecimal, in base 16 and in base 0 |
| FormatLaws.BaseZeroReads | 6.828/lab/lib/string.c:258-261 | in base 0 a leading 0 makes it octal, any other digit decimal |
| FormatLaws.LettersRead | 6.828/lab/lib/string.c:267-272 | letters of either case are the digits from ten on |
| FormatLaws.BlanksAreSkipped | 6.828/lab/lib/string.c:245-247 | blanks and tabs before a number are skipped |
| FormatLaws.SignsRead | 6.828/lab/lib/string.c:249-253 | a plus changes nothing, a minus the sign |
| Numerals.Sink.Put | 6.828/lab/lib/printfmt.c:261-267 | every character is counted, those beyond the limit are not stored, the rest of the buffer is untouched |
| Printf.Scan | 6.828/lab/lib/printfmt.c:98-156 | flags, width, precision and arguments collected by the gotos are those of the recursive scanner, up to the conversion character |
| Formats.ScanReads | 6.828/lab/lib/printfmt.c:98-156 | **Main.** the scanner gets back from a written field, anywhere in a format, its last padding flag, width, precision, number of l's and conversion |
| Formats.FieldsAreIndependent | 6.828/lab/lib/printfmt.c:82-243 | what a field prints depends on its own argument only, and every field but "%%" takes one argument |
| Printf.PutConversion | 6.828/lab/lib/printfmt.c:158-233 | each conversion writes the text it denotes |
| Printf.VPrintFmt | 6.828/lab/lib/printfmt.c:82-243 | **Main.** terminates on every format, never reads past its NUL, and writes the text the format denotes |
| FormatLaws.UnsignedReadsBack | 6.828/lab/lib/printfmt.c:200-228 | **Main.** "%u", "%o" and "%x" with any width, precision, l's and zero flag read back in base 10, 8 and 16 to the end, and are as long as the width or the digits |
| FormatLaws.HexIsLowerCase | 6.828/lab/lib/printfmt.c:49 | hexadecimal letters are lower case |
| FormatLaws.SignedReadsBackExactly | 6.828/lab/lib/printfmt.c:190-198 | **Main.** "%d" reads back as the two's complement argument if and only if no blank separates sign and digits |
| FormatLaws.DashesOnTheLeft | 6.828/lab/lib/printfmt.c:107-110 | with the flag '-' a number is padded with dashes on the left |
| FormatLaws.PointerReadsBack | 6.828/lab/lib/printfmt.c:213-220 | "%p" is "0x" and text that reads back in base 16 |
| FormatLaws.CharPrints | 6.828/lab/lib/printfmt.c:158-161 | "%c" is one character, the low byte of its argument |
| FormatLaws.PercentPrints | 6.828/lab/lib/printfmt.c:230-233 | "%%" is one percent sign |
| FormatLaws.StringPrints | 6.828/lab/lib/printfmt.c:174-188 | **Main.** "%N.Ms" has max(N, min(M, length)) characters, the cut string at the end, or at the start with '-', padding elsewhere, and '?' for unprintable ones with '#' |
| FormatLaws.StringArguments | 6.828/lab/lib/printfmt.c:176-181 | a string prints up to its NUL, and a null pointer as "(null)" |
| FormatLaws.LastFlagCounts | 6.828/lab/lib/printfmt.c:107-115 | of several padding flags the last one counts |
| FormatLaws.ZeroPrecisionIsAFlag | 6.828/lab/lib/printfmt.c:112-115 | "%.0s" prints the whole string |
| FormatLaws.StarTakesTheWidth | 6.828/lab/lib/printfmt.c:135-137 | '*' takes its width, a signed number, from the argument before the printed one |
| FormatLaws.ErrorNames | 6.828/lab/lib/printfmt.c:163-172 | "%e" prints the name of each error, of either sign, and the number of any other |
| FormatLaws.ReturnedErrors | 6.828/lab/inc/error.h:6-18 | what page_insert and vsnprintf return prints as out of memory and invalid parameter |
| Printf.UnknownEscapeIsLiteral | 6.828/lab/lib/printfmt.c:235-240 | **Main.** an escape that is not recognised comes out literally from its '%' on; its '*' arguments are used up all the same |
| Printf.PlainText | 6.828/lab/lib/printfmt.c:92-96 | text without '%' comes out as it is |
| Printf.ErrorFormats | 6.828/lab/lib/printfmt.c:163-172 | the nested formats of the error conversion print the name, or "error" and the number |
| Printf.Strnlen | 6.828/lab/lib/string.c:21-29 | the length of the string, or the bound if that is smaller |
| Printf.Vsnprintf | 6.828/lab/lib/printfmt.c:269-284 | **Main.** stores the first min(n-1, length) characters and a NUL, leaves the rest, and returns the full length; -E_INVAL exactly for no buffer or n < 1 |
| Memory.Memmove | 6.828/lab/lib/string.c:141-169 | **Main.** for every overlap and alignment the target becomes the old source and no other byte changes |
| Memory.MemmovePortable | 6.828/lab/lib/string.c:187-205 | so does the portable form |
| Memory.WordUp | 6.828/lab/lib/string.c:159-165 | a word move upwards is the same as four byte moves because target and source are whole words apart |
| Memory.WordDown | 6.828/lab/lib/string.c:148-157 | likewise downwards |
| Memory.MoveBack | 6.828/lab/lib/string.c:141-169 | moving back restores the source always, and all of memory if and only if the target's other bytes already equalled what was moved |
| Memory.SpreadBytes | 6.828/lab/lib/string.c:128-130 | all four bytes of the fill word are the low byte of c |
| Memory.Memset | 6.828/lab/lib/string.c:121-139 | **Main.** fills exactly the range with the low byte of c, by words or by bytes |
| Memory.MemsetPortable | 6.828/lab/lib/string.c:173-185 | so does the portable form |
| Console.Screen.Putc | 6.828/lab/kern/console.c:162-202 | **Main.** the buffer stays the 25-row window of the unbounded terminal, the cursor stays in it, tabs and backspace included; what control characters do is told by the cells in the rows below |
| Console.Screen.ScrollIfNeeded | 6.828/lab/kern/console.c:193-202 | scrolling moves the window down one row, with a blank last row, exactly when the cursor has left it |
| Console.Screen.PutAll | 6.828/lab/kern/console.c:162-202 | so it is after any text |
| Console.WriteKeepsOk | 6.828/lab/kern/console.c:162-202 | after any character the cursor is in the window and nothing below the window is written; the window never moves up |
| Console.ScrolledOffIsFinal | 6.828/lab/kern/console.c:193-202 | a row that has scrolled off the top never changes again |
| Console.PlainTextAppears | 6.828/lab/kern/console.c:187-189 | **Main.** plain text is on the terminal in order from the old cursor on, across rows and scrolls |
| Console.CellOfCharacter | 6.828/lab/kern/console.c:165-167 | a character without attribute is white on black, one with an attribute keeps it |
| Console.NewlineThenText | 6.828/lab/kern/console.c:176-181 | **Main.** after a newline text starts at the first column of the next row, and all cells above are kept |
| Console.ReturnThenText | 6.828/lab/kern/console.c:179-181 | after a carriage return text starts at the first column of the same row |
| Console.BackspaceErases | 6.828/lab/kern/console.c:170-175 | **Main.** a backspace undoes a character, leaving a blank with the backspace's attribute, and stops at the first cell of the window |
| Console.TabIsFiveBlanks | 6.828/lab/kern/console.c:182-188 | a tab is five blank cells from the cursor on |
| Console.WindowFollows | 6.828/lab/kern/console.c:193-202 | the window moves only when the cursor has left it, and then only so far that the cursor is in its last row |
| InputBuffer.Input.Intr | 6.828/lab/kern/console.c:395-407 | stores what the device delivers up to -1, without zeros, over whatever is in the way |
| InputBuffer.DeliveredExactly | 6.828/lab/kern/console.c:400-402 | no 0 is ever stored; every other answer up to the first -1 is, in order, with its low byte |
| InputBuffer.Input.Getc | 6.828/lab/kern/console.c:410-429 | **Main.** after w stored and r taken, 0 if (w - r) mod 512 = 0, else character w - (w - r) mod 512 of the stream |
| InputBuffer.NextInRange | 6.828/lab/kern/console.c:421-427 | the next character is number r plus 512 times the whole bufferfuls pending: only those are lost |
| InputBuffer.TakeKeepsOrder | 6.828/lab/kern/console.c:421-427 | characters come out in order, each at most once, with gaps of whole bufferfuls |
| InputBuffer.FirstInFirstOutExactly | 6.828/lab/kern/console.c:387-429 | **Main.** over any interleaving what was taken is the beginning of what was stored if and only if no read takes a character with 512 or more pending |
| BootLoader.ReadSeg | 6.828/lab/boot/main.c:69-96 | **Main.** every byte from the sector boundary below pa to the one above the end is the image's, all others are unchanged, with 32-bit wrap-around of the end |
| BootLoader.LoadExactly | 6.828/lab/boot/main.c:76-95 | the same in numbers, byte by byte |
| BootLoader.LoadIsIntact | 6.828/lab/boot/main.c:69-96 | if address and offset agree modulo 512, each byte asked for is the image's at the same distance |
| BootLoader.AllIntact | 6.828/lab/boot/main.c:50-56 | **Main.** after all loads every segment is intact, if no later segment's sectors touch an earlier segment's bytes |
| BootLoader.SurvivesExactly | 6.828/lab/boot/main.c:84-86 | **Main.** of two segments the earlier one survives if and only if the image agrees with it on every byte the later one's sectors cover |
| BootLoader.IncreasingIsPlaced | 6.828/lab/boot/main.c:84-86 | increasing order with sector-aligned starts is enough for that |
| BootLoader.BootMain | 6.828/lab/boot/main.c:38-67 | for every image: reads the header page, rejects exactly the images that do not begin with 0x7F, 'E', 'L', 'F', runs the loop over program headers as they are in memory when it comes to them, wherever they are and whatever the loads have overwritten, and enters at e_entry as it is then |
| BootLoader.MagicExactly | 6.828/lab/boot/main.c:46-48 | the magic number is there if and only if the image's first four bytes are those |
| BootLoader.HeaderFields | 6.828/lab/boot/main.c:50-60 | **Main.** the number of segments, the place, size and offset of each, and the entry point have the image's bytes as digits, least significant first |
| BootLoader.SafeKernelLoads | 6.828/lab/boot/main.c:50-60 | with the headers in the first page and no segment over it, the loop loads the segments the image lists, and e_entry is the image's |
| BootLoader.KernelIsLoaded | 6.828/lab/boot/main.c:44-60 | **Main.** every segment of a well placed kernel is in memory, byte for byte, when it is entered |

## Left out

- Other page directories: all operations work on the one directory `kern_pgdir`, as every call in the repository does.
- Contents of mapped user pages: `PageManager` says which frames an operation leaves alone, not what programs store in them.
- Panics inside the memory manager other than those of `page_free`, `page_init` and the self tests: the proofs show that the addresses they guard against do not occur, on machines with at most 256MB as `kern/pmap.h` promises.
- PageManager.Machine.PageLookup: says nothing about `pte_store`, which the source never stores through.
- PageManager.Machine.PageDecref: keeps the list and says what the counter and the free list become; the counting invariant holds again only once the caller has cleared the entry, and `PageRemove` states it.
- SpaceLaws.RunKeepsFrameCoherence: is about frames; permissions are not kept coherent by the code, and `PermissionCoherenceExactly` says exactly when.
- BootMap.BootMapRegion: addresses must be page-aligned, above UTOP, outside the self-map and not yet mapped, as the source's comment and its calls have them; the size is rounded down as the code does.
- MemInit.Boot: the translations of `entry_pgdir`, in use until the new directory is loaded, and the control registers are not modelled.
- Accessed and dirty bits: the processor may set them in table words; the model's words keep the flags the kernel wrote.
- Caches of directory entries inside the processor: the buffer holds translations of pages.
- A self test that fails: the models of the tests return whether they pass; what a panic prints is not modelled.
- `boot_alloc`: only what it hands out here, the directory and the page records, and the next free address; its panic is left out. The records end where `page_init` puts their end, since `mem_init` reserves only half of their size.
- Memory detection through NVRAM: the page counts are parameters.
- `debuginfo_eip` beyond its nested brackets: file names, line numbers (the code stores a table index there) and argument counts.
- Arithmetic overflow in formats and numbers: `strtol` beyond an int, a width or precision beyond an int, and the negation of the least int in `%e`.
- Variable arguments: the list is a function from position to what a conversion would read there; the nested call for `%e` is replaced by what it prints, which `Printf.ErrorFormats` justifies.
- The result of `cprintf`, and `snprintf`, `printfmt`, `readline`, the monitor commands and the backtrace: thin layers over what is modelled.
- The other functions of `lib/string.c`: simple loops without interplay.
- Serial and parallel ports, keyboard maps, the 6845 cursor registers: device input and output; the device routines of the input buffer are sequences of answers.
- Disk commands of the boot loader: reading a sector is a copy from the image; a failing disk and sector numbers beyond 28 bits are not part of the model.
- BootLoader.BootMain: physical memory ends below 4GB; what happens at a program header beyond memory, or in a load beyond it or up to the very top of the address space, where the loop would not end, is the outcome `Stuck` and nothing more.
- `fs/test.c` and `user/sendpage.c`: the code they exercise is not in the repository.
