/** The kernel's check of its finished page directory. */
module CheckKernel {
  import opened Base
  import opened Mmu
  import opened AddressSpace
  import opened Representation
  import opened PageManager
  import opened BootMap
  import opened KernelMap

  /** The frame at a page, and no frame when it is not mapped. */
  lemma LayoutFrames(s: Space, dir: FrameNo, n: nat, pages: int, stack: int, i: nat)
    requires KernelMapped(s, n, pages, stack) && n <= 1024
    ensures i < 0x1_0000 ==>
      Translate(s, dir, KERN0 + i).Some? && Translate(s, dir, KERN0 + i).value.frame == i
    ensures i < 8 ==>
      Translate(s, dir, STACK0 + i).Some? && Translate(s, dir, STACK0 + i).value.frame == stack + i
    ensures Translate(s, dir, 0xEFC00) == None
  {
    hide KernelMapped, Translate;
    InKernelMapped(s, n, pages, stack);
    if i < 0x1_0000 {
      assert Dir(KERN0 + i) >= 960;
      KernelTranslations(s, dir, n, pages, stack, KERN0 + i);
    }
    if i < 8 {
      assert Dir(STACK0 + i) == 959;
      KernelTranslations(s, dir, n, pages, stack, STACK0 + i);
    }
    KernelTranslations(s, dir, n, pages, stack, 0xEFC00);
  }

  /** One comparison: the address is mapped to the page number expected. */
  method MapsTo(m: Machine, va: Word, pa: int) returns (ok: bool)
    requires m.Valid() && va % 4096 == 0 && pa % 4096 == 0
    ensures var t := Translate(m.space, m.dir, PGNUM(va));
      ok <==> t.Some? && Page2pa(t.value.frame) == pa
  {
    hide Machine.Valid, Translate;
    var r := m.CheckVa2pa(va);
    ok := r == pa;
  }

  /** The page records, in whole pages rounded up. */
  method CheckRecords(m: Machine, pages: Word) returns (ok: bool)
    requires m.Valid() && m.npages <= 0x1_0000 && pages % 4096 == 0
    ensures ok <==> forall k: nat :: k < RoundUpPages(m.npages * 8) ==> PagePlaced(m.space, m.dir, PGNUM(pages), k)
  {
    hide Machine.Valid, Translate;
    var n := RoundUpPages(m.npages * 8);
    for i := 0 to n
      invariant forall k: nat :: k < i ==> PagePlaced(m.space, m.dir, PGNUM(pages), k)
    {
      assert PGNUM(UPAGES + 4096 * i) == PAGES0 + i;
      ok := MapsTo(m, UPAGES + 4096 * i, pages + 4096 * i);
      assert ok <==> PagePlaced(m.space, m.dir, PGNUM(pages), i);
      if !ok {
        return;
      }
    }
    return true;
  }

  /** Physical memory, the stack and the guard below it. */
  method CheckPhysicalAndStack(m: Machine, ghost n: nat, ghost pages: int, bootstack: Word) returns (ok: bool)
    requires m.Valid() && m.npages <= 0x1_0000 && n <= 1024 && Within(bootstack, 8)
    requires KernelMapped(m.space, n, pages, PGNUM(bootstack))
    ensures ok
  {
    hide Machine.Valid, Translate, KernelMapped;
    for i := 0 to m.npages
    {
      LayoutFrames(m.space, m.dir, n, pages, PGNUM(bootstack), i);
      assert PGNUM(KERNBASE + 4096 * i) == KERN0 + i;
      ok := MapsTo(m, KERNBASE + 4096 * i, 4096 * i);
      if !ok {
        return;
      }
    }
    for i := 0 to 8
    {
      LayoutFrames(m.space, m.dir, n, pages, PGNUM(bootstack), i);
      assert PGNUM(KSTACKTOP - KSTKSIZE + 4096 * i) == STACK0 + i;
      ok := MapsTo(m, KSTACKTOP - KSTKSIZE + 4096 * i, bootstack + 4096 * i);
      if !ok {
        return;
      }
    }
    LayoutFrames(m.space, m.dir, n, pages, PGNUM(bootstack), 0);
    assert PGNUM(KSTACKTOP - PTSIZE) == 0xEFC00;
    var r := m.CheckVa2pa(KSTACKTOP - PTSIZE);
    ok := r == UNMAPPED;
  }

  /** What the check asks of one directory word. */
  function WordPasses(w: Word, i: int): bool {
    if i == 957 || i == 959 || i == 956 then Present(w)
    else if i >= 960 then Present(w) && w / 2 % 2 == 1
    else w == 0
  }

  lemma WordsPass(m: Machine, n: nat, pages: int, stack: int, i: int)
    requires m.Valid() && KernelMapped(m.space, n, pages, stack) && 0 <= i < 1024
    ensures m.dir < m.mem.Length && (WordPasses(m.mem[m.dir][i], i) <==> i != 956 || n > 0)
  {
    ReadSelf(m.mem[..], m.dir, m.space, i);
    SlotsUsed(m.space, n, pages, stack, i);
    assert m.mem[..][m.dir][i] == DirWord(m.space, m.dir, i);
    if i in m.space.table {
      DecodeEncode(TableEntry(m.space.table[i]));
    }
  }

  lemma SlotsUsed(s: Space, n: nat, pages: int, stack: int, i: int)
    requires KernelMapped(s, n, pages, stack) && 0 <= i < 1024
    ensures i in s.table <==> i >= 959 || (i == 956 && n > 0)
  {
    hide Mapped;
    assert i in s.table.Keys <==> i in Interval(956, 956 + PageTables(n)) || i >= 959;
  }

  /** The loop over the directory, on any machine: which words must be present, writable too, or zero. */
  method CheckDirectory(m: Machine) returns (ok: bool)
    requires m.Valid() && m.dir < m.mem.Length
    ensures ok <==> forall i :: 0 <= i < 1024 ==>
      var w := m.mem[m.dir][i];
      if i >= 960 then w % 2 == 1 && w / 2 % 2 == 1
      else if i == 956 || i == 957 || i == 959 then w % 2 == 1
      else w == 0
  {
    hide Machine.Valid;
    for i := 0 to NPDENTRIES
      invariant forall j :: 0 <= j < i ==> WordPasses(m.mem[m.dir][j], j)
    {
      if !WordPasses(m.mem[m.dir][i], i) {
        return false;
      }
    }
    return true;
  }

  /** With the kernel mapped only the slot of the page records may fail. */
  lemma DirectoryPasses(m: Machine, n: nat, pages: int, stack: int)
    requires m.Valid() && KernelMapped(m.space, n, pages, stack)
    ensures m.dir < m.mem.Length
    ensures n > 0 <==> forall i :: 0 <= i < 1024 ==>
      var w := m.mem[m.dir][i];
      if i >= 960 then w % 2 == 1 && w / 2 % 2 == 1
      else if i == 956 || i == 957 || i == 959 then w % 2 == 1
      else w == 0
  {
    hide Machine.Valid, KernelMapped;
    WordsPass(m, n, pages, stack, 956);
    forall i | 0 <= i < 1024
      ensures WordPasses(m.mem[m.dir][i], i) <==> i != 956 || n > 0
    {
      WordsPass(m, n, pages, stack, i);
    }
    assert WordPasses(m.mem[m.dir][956], 956) <==> n > 0;
  }

  /** The check of the finished directory passes exactly when the page records fill whole pages. */
  method CheckKernPgdir(m: Machine, pages: Word, bootstack: Word) returns (ok: bool)
    requires m.Valid() && 0 < m.npages && Within(pages, RecordPages(m.npages)) && Within(bootstack, 8)
    requires KernelMapped(m.space, RecordPages(m.npages), PGNUM(pages), PGNUM(bootstack))
    ensures ok <==> m.npages % 512 == 0
  {
    hide Machine.Valid, KernelMapped, PagePlaced, PGNUM;
    ghost var n := RecordPages(m.npages);
    MemorySize(m);
    PagesCheckExactly(m.space, m.dir, m.npages, PGNUM(pages), PGNUM(bootstack));
    ok := CheckRecords(m, pages);
    if ok {
      ok := CheckPhysicalAndStack(m, n, PGNUM(pages), bootstack);
      if ok {
        DirectoryPasses(m, n, PGNUM(pages), PGNUM(bootstack));
        ok := CheckDirectory(m);
      }
    }
  }

  lemma MemorySize(m: Machine)
    requires m.Valid()
    ensures m.npages <= 0x1_0000 && RecordPages(m.npages) <= 128
  {
  }
}
