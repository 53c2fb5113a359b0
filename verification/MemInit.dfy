/** mem_init from start to end: page records, self tests, kernel mappings, and the switch to the new directory. */
module MemInit {
  import opened Mmu
  import opened AddressSpace
  import opened Representation
  import opened PageManager
  import opened FreeListOrder
  import opened BootMap
  import opened KernelMap
  import PageInit
  import CheckAlloc
  import CheckPage
  import CheckKernel
  import CheckInstalled

  // -------------------------------------------------- what boot_alloc hands out

  /** Whole pages from the end of the kernel image on: first the directory. */
  function DirFrame(kernelEnd: nat): nat {
    (kernelEnd + 4095) / 4096
  }

  /** Then the page records, eight bytes each. */
  function RecordsAt(kernelEnd: nat): nat {
    DirFrame(kernelEnd) * 4096 + 4096
  }

  function RecordsEnd(kernelEnd: nat, npages: nat): nat {
    RecordsAt(kernelEnd) + npages * 8
  }

  /** The next free address as boot_alloc has it: only four bytes a record are reserved, in whole pages. */
  function NextFree(kernelEnd: nat, npages: nat): nat {
    RecordsAt(kernelEnd) + npages * 4 / 4096 * 4096
  }

  // -------------------------------------------------- when memory can be set up

  /** The first free list, low memory first. */
  function FirstList(npages: nat, basemem: nat, kernelEnd: nat): seq<FrameNo>
    requires npages <= 0x1_0000 && basemem <= PageInit.IO_PAGE
  {
    LowFirst(PageInit.InitialFree(npages, basemem, RecordsEnd(kernelEnd, npages)), 1)
  }

  /** What is left of it when the kernel's page tables have been taken. */
  function LastList(npages: nat, basemem: nat, kernelEnd: nat): seq<FrameNo>
    requires npages <= 0x1_0000 && basemem <= PageInit.IO_PAGE
  {
    var q, k := FirstList(npages, basemem, kernelEnd), TablesNeeded(RecordPages(npages));
    if k <= |q| then q[k..] else []
  }

  /**
   Everything mem_init needs: memory beyond the page records, base memory beyond page 0, records that
   fill whole pages, and, after the kernel's tables, three pages, of base and of extended memory.
   */
  ghost predicate Bootable(npages: nat, basemem: nat, kernelEnd: nat)
    requires npages <= 0x1_0000 && basemem <= PageInit.IO_PAGE
  {
    var last := LastList(npages, basemem, kernelEnd);
    && PageInit.FirstFree(RecordsEnd(kernelEnd, npages)) < npages && basemem >= 2 && npages % 512 == 0
    && |last| >= 3 && CheckAlloc.HasKind(last, true) && CheckAlloc.HasKind(last, false)
  }

  /**
   What belongs to the allocator, by frame number: base memory from page 1 on, and extended memory from
   the end of the page records on, which follow the directory, eight bytes for each page.
   */
  ghost predicate Owns(s: Space, dir: FrameNo, npages: nat, basemem: nat) {
    forall f: FrameNo :: f in s.managed <==> 1 <= f < basemem || dir + 1 + (npages * 8 + 4095) / 4096 <= f < npages
  }

  /** The state in which mem_init leaves the machine. */
  ghost predicate Booted(m: Machine, basemem: nat, kernelEnd: nat, bootstack: Word)
    requires m.npages <= 0x1_0000 && basemem <= PageInit.IO_PAGE
    reads m, m.ref, m.link, m.mem
  {
    var last := LastList(m.npages, basemem, kernelEnd);
    && m.loaded && CheckInstalled.Settled(m) && (m.Valid() <==> CheckInstalled.STALE !in m.tlb)
    && KernelMapped(m.space, RecordPages(m.npages), m.dir + 1, PGNUM(bootstack))
    && |last| >= 3 && m.space.free == [last[0], last[2], last[1]] + last[3..]
    && kernelEnd <= m.dir * 4096 < kernelEnd + 4096
    && Owns(m.space, m.dir, m.npages, basemem)
  }

  // -------------------------------------------------- the facts between the stages

  lemma BootLayout(kernelEnd: nat, npages: nat)
    requires 0x10_0000 <= kernelEnd && DirFrame(kernelEnd) < npages <= 0x1_0000
    ensures PageInit.EXT_PAGE <= DirFrame(kernelEnd) < PageInit.FirstFree(RecordsEnd(kernelEnd, npages))
    ensures PageInit.EXT_PAGE < npages
    ensures NextFree(kernelEnd, npages) <= RecordsEnd(kernelEnd, npages)
    ensures PageInit.EXT_PAGE * 4096 < RecordsEnd(kernelEnd, npages)
  {
  }

  /** The next free address is inside the page records: of eight bytes a record only four are reserved. */
  lemma HalfReserved(kernelEnd: nat, npages: nat)
    requires npages % 1024 == 0
    ensures NextFree(kernelEnd, npages) == (kernelEnd + 4095) / 4096 * 4096 + 4096 + 4 * npages
    ensures RecordsEnd(kernelEnd, npages) == NextFree(kernelEnd, npages) + 4 * npages
  {
  }

  lemma RecordsFit(kernelEnd: nat, npages: nat)
    requires PageInit.FirstFree(RecordsEnd(kernelEnd, npages)) < npages <= 0x1_0000
    ensures 0 <= RecordsAt(kernelEnd) < 0x1_0000_0000 && Within(RecordsAt(kernelEnd), RecordPages(npages))
  {
  }

  lemma RecordsFollow(kernelEnd: nat)
    requires DirFrame(kernelEnd) < 0x1_0000
    ensures RecordsAt(kernelEnd) == DirFrame(kernelEnd) * 4096 + 4096 && PGNUM(RecordsAt(kernelEnd)) == DirFrame(kernelEnd) + 1
  {
  }

  lemma SelfOnly(dir: FrameNo)
    ensures PageInit.OnlySelf(ZEROS[SELF := Encode(Pte(dir, PTE_U + PTE_P))], dir)
  {
  }

  lemma InitialState(m: Machine, basemem: nat, end: nat)
    requires PageInit.Initialised(m, basemem, end) && PageInit.FirstFree(end) < m.npages
    ensures m.Valid() && m.npages <= 0x1_0000 && basemem <= PageInit.EXT_PAGE
    ensures m.space.free == PageInit.InitialFree(m.npages, basemem, end) != []
    ensures m.space.table == map[] && m.space.pte == map[]
    ensures m.space.managed == PageInit.InitialSpace(m.npages, basemem, end).managed
  {
  }

  lemma InFirstList(npages: nat, basemem: nat, kernelEnd: nat, f: FrameNo)
    requires npages <= 0x1_0000 && basemem <= PageInit.IO_PAGE
    ensures f in FirstList(npages, basemem, kernelEnd) <==>
            1 <= f < basemem || PageInit.FirstFree(RecordsEnd(kernelEnd, npages)) <= f < npages
  {
    var end := RecordsEnd(kernelEnd, npages);
    PageInit.FreeMembers(npages, basemem, end, f);
    PickMembers(PageInit.InitialFree(npages, basemem, end), 1, false, f);
    PickMembers(PageInit.InitialFree(npages, basemem, end), 1, true, f);
  }

  lemma InitiallyOwned(npages: nat, basemem: nat, kernelEnd: nat, s: Space)
    requires 0x10_0000 <= kernelEnd && DirFrame(kernelEnd) < npages <= 0x1_0000 && basemem <= PageInit.IO_PAGE
    requires s.managed == PageInit.InitialSpace(npages, basemem, RecordsEnd(kernelEnd, npages)).managed
    ensures Owns(s, DirFrame(kernelEnd), npages, basemem)
    ensures kernelEnd <= DirFrame(kernelEnd) * 4096 < kernelEnd + 4096
  {
    forall f: FrameNo
      ensures f in s.managed <==>
        1 <= f < basemem || DirFrame(kernelEnd) + 1 + (npages * 8 + 4095) / 4096 <= f < npages
    {
      PageInit.FreeMembers(npages, basemem, RecordsEnd(kernelEnd, npages), f);
    }
  }

  lemma SameManaged(s: Space, dir: FrameNo, npages: nat, basemem: nat)
    requires Owns(s, dir, npages, basemem)
    ensures forall s': Space :: s'.managed == s.managed ==> Owns(s', dir, npages, basemem)
  {
  }

  lemma AllFree(npages: nat, basemem: nat, kernelEnd: nat)
    requires 0x10_0000 <= kernelEnd && DirFrame(kernelEnd) < npages <= 0x1_0000 && basemem <= PageInit.IO_PAGE
    ensures CheckAlloc.AllMayBeFree(FirstList(npages, basemem, kernelEnd), NextFree(kernelEnd, npages))
  {
    hide PageInit.FirstFree, FirstList, PageInit.InitialFree, NextFree, RecordsEnd;
    var q, end := FirstList(npages, basemem, kernelEnd), RecordsEnd(kernelEnd, npages);
    BootLayout(kernelEnd, npages);
    forall i | 0 <= i < |q|
      ensures CheckAlloc.MayBeFree(q[i], NextFree(kernelEnd, npages))
    {
      InFirstList(npages, basemem, kernelEnd, q[i]);
      PageInit.FreeMembers(npages, basemem, end, q[i]);
      PageInit.FreePagesChecked(npages, basemem, end, q[i]);
    }
  }

  /** The first check of the free list passes exactly when there is base memory beyond page 0. */
  lemma FirstListPasses(npages: nat, basemem: nat, kernelEnd: nat)
    requires 0x10_0000 <= kernelEnd && DirFrame(kernelEnd) < npages <= 0x1_0000 && basemem <= PageInit.IO_PAGE
    requires PageInit.FirstFree(RecordsEnd(kernelEnd, npages)) < npages
    ensures CheckAlloc.FreeListPasses(FirstList(npages, basemem, kernelEnd), NextFree(kernelEnd, npages)) <==> basemem >= 2
  {
    hide FirstList, CheckAlloc.AllMayBeFree, PageInit.FirstFree, NextFree, RecordsEnd;
    var q := FirstList(npages, basemem, kernelEnd);
    AllFree(npages, basemem, kernelEnd);
    BootLayout(kernelEnd, npages);
    InFirstList(npages, basemem, kernelEnd, npages - 1);
    var j :| 0 <= j < |q| && q[j] == npages - 1;
    assert CheckAlloc.IsKind(q[j], false);
    InFirstList(npages, basemem, kernelEnd, 1);
    if basemem >= 2 {
      var i :| 0 <= i < |q| && q[i] == 1;
      assert CheckAlloc.IsKind(q[i], true);
    }
    forall i | 0 <= i < |q|
      ensures CheckAlloc.IsKind(q[i], true) ==> basemem >= 2
    {
      InFirstList(npages, basemem, kernelEnd, q[i]);
    }
  }

  /** check_page has turned the first three pages around, all of which become tables. */
  lemma AfterTables(q: seq<FrameNo>, q': seq<FrameNo>, k: nat)
    requires |q| >= 3 && q' == [q[2], q[1], q[0]] + q[3..] && 3 <= k <= |q|
    ensures q'[k..] == q[k..]
  {
  }

  lemma SuffixMayBeFree(q: seq<FrameNo>, k: nat, firstFree: nat)
    requires CheckAlloc.AllMayBeFree(q, firstFree) && k <= |q|
    ensures CheckAlloc.AllMayBeFree(q[k..], firstFree)
  {
  }

  lemma SlotsFree(s: Space, n: nat, pages: int, stack: int)
    requires KernelMapped(s, n, pages, stack)
    ensures 0 !in s.table && 1 !in s.table
  {
    CheckKernel.SlotsUsed(s, n, pages, stack, 0);
    CheckKernel.SlotsUsed(s, n, pages, stack, 1);
  }

  // -------------------------------------------------- the stages

  /** Page records and self tests; the maps are still empty. */
  method Prepare(npages: nat, basemem: nat, kernelEnd: nat, contents: seq<Frame>) returns (m: Machine, ok: bool)
    requires |contents| == npages <= 0x1_0000 && basemem <= PageInit.IO_PAGE && 0x10_0000 <= kernelEnd
    requires DirFrame(kernelEnd) < npages
    ensures m.npages == npages && fresh(m) && fresh(m.ref) && fresh(m.link) && fresh(m.mem)
    ensures var q := FirstList(npages, basemem, kernelEnd);
      && (ok <==> PageInit.FirstFree(RecordsEnd(kernelEnd, npages)) < npages && basemem >= 2 && |q| >= 3)
      && (ok ==> m.Valid() && !m.loaded && Empty(m.space, [q[2], q[1], q[0]] + q[3..]))
    ensures ok ==>
      m.dir == DirFrame(kernelEnd) && kernelEnd <= m.dir * 4096 < kernelEnd + 4096 && Owns(m.space, m.dir, npages, basemem)
  {
    hide Machine.Valid, PageInit.Initialised, PageInit.InitialFree, PageInit.FirstFree, DirFrame, RecordsEnd,
         PageInit.OnlySelf, LowFirst, NextFree, CheckAlloc.FreeListPasses, Owns, PageInit.InitialSpace;
    ghost var end := RecordsEnd(kernelEnd, npages);
    BootLayout(kernelEnd, npages);
    SelfOnly(DirFrame(kernelEnd));
    m := new Machine(npages, DirFrame(kernelEnd), contents);
    var panicked := PageInit.Init(m, basemem, RecordsEnd(kernelEnd, npages));
    if panicked {
      return m, false;
    }
    InitialState(m, basemem, end);
    InitiallyOwned(npages, basemem, kernelEnd, m.space);
    SameManaged(m.space, m.dir, npages, basemem);
    FirstListPasses(npages, basemem, kernelEnd);
    ok := CheckAlloc.CheckPageFreeList(m, true, NextFree(kernelEnd, npages));
    if !ok {
      return;
    }
    ok := CheckAlloc.CheckPageAlloc(m);
    if !ok {
      return;
    }
    CheckPage.CheckPage(m);
  }

  /** The kernel is mapped; the free list is what the tables have left over. */
  ghost predicate ReadyToSwitch(m: Machine, basemem: nat, kernelEnd: nat, bootstack: Word)
    requires m.npages <= 0x1_0000 && basemem <= PageInit.IO_PAGE
    reads m, m.ref, m.link, m.mem
  {
    && m.Valid() && 0 < m.npages && 0x10_0000 <= kernelEnd
    && PageInit.FirstFree(RecordsEnd(kernelEnd, m.npages)) < m.npages
    && 0 <= RecordsAt(kernelEnd) < 0x1_0000_0000 && Within(bootstack, 8)
    && KernelMapped(m.space, RecordPages(m.npages), PGNUM(RecordsAt(kernelEnd)), PGNUM(bootstack))
    && m.space.free == LastList(m.npages, basemem, kernelEnd)
    && TablesNeeded(RecordPages(m.npages)) <= |FirstList(m.npages, basemem, kernelEnd)|
    && m.dir == DirFrame(kernelEnd) && kernelEnd <= m.dir * 4096 < kernelEnd + 4096
    && Owns(m.space, m.dir, m.npages, basemem)
  }

  /** The checks with the directory in use. */
  method CheckInUse(m: Machine, basemem: nat, kernelEnd: nat, bootstack: Word) returns (ok: bool)
    requires m.npages <= 0x1_0000 && basemem <= PageInit.IO_PAGE
    requires m.loaded && ReadyToSwitch(m, basemem, kernelEnd, bootstack)
    modifies m`head, m`space, m`tlb, m.ref, m.link, m.mem
    ensures var last := LastList(m.npages, basemem, kernelEnd);
      ok <==> |last| >= 3 && CheckAlloc.HasKind(last, true) && CheckAlloc.HasKind(last, false)
    ensures ok ==> Booted(m, basemem, kernelEnd, bootstack)
  {
    hide Machine.Valid, PageInit.FirstFree, DirFrame, RecordsEnd, RecordsAt, NextFree, RecordPages, FirstList,
         CheckAlloc.HasKind, CheckAlloc.AllMayBeFree, CheckInstalled.Settled, KernelMapped, PGNUM, TablesNeeded, Owns;
    ghost var n, pages, stack := RecordPages(m.npages), PGNUM(RecordsAt(kernelEnd)), PGNUM(bootstack);
    SameManaged(m.space, m.dir, m.npages, basemem);
    DirectoryExists(m);
    RecordsFollow(kernelEnd);
    AllFree(m.npages, basemem, kernelEnd);
    SuffixMayBeFree(FirstList(m.npages, basemem, kernelEnd), TablesNeeded(n), NextFree(kernelEnd, m.npages));
    ok := CheckAlloc.CheckPageFreeList(m, false, NextFree(kernelEnd, m.npages));
    if !ok {
      return;
    }
    SlotsFree(m.space, n, pages, stack);
    ghost var s := m.space;
    ok := CheckInstalled.CheckInstalledPgdir(m);
    if ok {
      MapsMatter(s, m.space, n, pages, stack);
    }
  }

  lemma DirectoryExists(m: Machine)
    requires m.Valid()
    ensures m.dir < m.npages
  {
  }

  /** With the kernel mapped: the check of the mappings, the switch to the directory, and the other checks. */
  method Switch(m: Machine, basemem: nat, kernelEnd: nat, bootstack: Word) returns (ok: bool)
    requires m.npages <= 0x1_0000 && basemem <= PageInit.IO_PAGE && ReadyToSwitch(m, basemem, kernelEnd, bootstack)
    modifies m`head, m`space, m`tlb, m`loaded, m.ref, m.link, m.mem
    ensures var last := LastList(m.npages, basemem, kernelEnd);
      ok <==> m.npages % 512 == 0 && |last| >= 3 && CheckAlloc.HasKind(last, true) && CheckAlloc.HasKind(last, false)
    ensures ok ==> Booted(m, basemem, kernelEnd, bootstack)
  {
    hide Machine.Valid, PageInit.FirstFree, DirFrame, RecordsEnd, RecordsAt, NextFree, RecordPages, FirstList, LastList, Booted,
         CheckAlloc.HasKind, CheckAlloc.AllMayBeFree, CheckInstalled.Settled, KernelMapped, PGNUM, TablesNeeded, Owns;
    RecordsFit(kernelEnd, m.npages);
    ok := CheckKernel.CheckKernPgdir(m, RecordsAt(kernelEnd), bootstack);
    if !ok {
      return;
    }
    ValidIsSound(m);
    m.LoadDirectory();
    ValidAgain(m);
    ok := CheckInUse(m, basemem, kernelEnd, bootstack);
  }

  lemma ValidIsSound(m: Machine)
    requires m.Valid()
    ensures m.Sound() && m.CountOk()
  {
  }

  lemma ValidAgain(m: Machine)
    requires m.Sound() && m.CountOk()
    ensures m.Valid()
  {
  }

  lemma MapsMatter(s: Space, s': Space, n: nat, pages: int, stack: int)
    requires KernelMapped(s, n, pages, stack) && s' == s.(free := s'.free)
    ensures KernelMapped(s', n, pages, stack)
  {
  }

  /**
   Sets up memory, from whatever memory held.  It gets through all its checks exactly if the machine is
   bootable; then the kernel part of the address space is as laid out, the user part is empty, the free
   list is what the tables have left over, and the directory is in use.
   */
  method Boot(npages: nat, basemem: nat, kernelEnd: nat, bootstack: Word, contents: seq<Frame>)
    returns (m: Machine, ok: bool)
    requires |contents| == npages <= 0x1_0000 && basemem <= PageInit.IO_PAGE && 0x10_0000 <= kernelEnd
    requires DirFrame(kernelEnd) < npages && Within(bootstack, 8)
    ensures m.npages == npages
    ensures ok <==> Bootable(npages, basemem, kernelEnd)
    ensures ok ==> Booted(m, basemem, kernelEnd, bootstack)
  {
    hide Machine.Valid, KernelMapped, PageInit.FirstFree, Within, RecordPages, DirFrame, RecordsAt, RecordsEnd,
         FirstList, PGNUM, Booted, CheckAlloc.HasKind, Owns;
    m, ok := Prepare(npages, basemem, kernelEnd, contents);
    if !ok {
      return;
    }
    ghost var q := FirstList(npages, basemem, kernelEnd);
    SameManaged(m.space, m.dir, npages, basemem);
    RecordsFit(kernelEnd, npages);
    ok := MapKernel(m, RecordsAt(kernelEnd), bootstack);
    if !ok {
      return;
    }
    AfterTables(q, [q[2], q[1], q[0]] + q[3..], TablesNeeded(RecordPages(npages)));
    ok := Switch(m, basemem, kernelEnd, bootstack);
  }
}
