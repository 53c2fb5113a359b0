/** The kernel's part of the address space after mem_init: page records, stack, physical memory. */
module KernelMap {
  import opened Base
  import opened Mmu
  import opened AddressSpace
  import opened PageManager
  import opened BootMap

  /** Page numbers of UPAGES, of the stack, and of KERNBASE. */
  const PAGES0 := 0xEF000
  const STACK0 := 0xEFFF8
  const KERN0 := 0xF0000

  /** sizeof(struct PageInfo) is 8, so 512 records fill a page. */
  function RecordPages(npages: nat): nat {
    npages * 8 / 4096
  }

  // -------------------------------------------------- how many tables the regions need

  ghost function Interval(lo: int, hi: int): set<int> {
    set d | lo <= d < hi && IsVpn(d)
  }

  lemma {:induction false} IntervalSize(lo: int, hi: int)
    requires 0 <= lo <= hi <= NVPN
    ensures |Interval(lo, hi)| == hi - lo
    decreases hi - lo
  {
    if lo == hi {
      assert Interval(lo, hi) == {};
    } else {
      IntervalSize(lo + 1, hi);
      assert Interval(lo, hi) == Interval(lo + 1, hi) + {lo};
      assert lo !in Interval(lo + 1, hi);
    }
  }

  lemma MissingSlots(table: map<int, FrameNo>, v0: int, n: nat, lo: int, hi: int)
    requires 0 <= lo <= hi <= NPDENTRIES && forall d :: lo <= d < hi ==> d !in table
    requires if n == 0 then lo == hi else Dir(v0) == lo && Dir(v0 + n - 1) == hi - 1
    ensures Missing(table, v0, n) == Interval(lo, hi) && |Missing(table, v0, n)| == hi - lo
  {
    IntervalSize(lo, hi);
    forall d
      ensures d in Missing(table, v0, n) <==> d in Interval(lo, hi)
    {
    }
  }

  // -------------------------------------------------- the three mappings

  /** The map after the three calls, as a flat map over the whole address space. */
  ghost predicate KernelMapped(s: Space, n: nat, pages: int, stack: int) {
    && 0 <= pages && pages + n <= NVPN && 0 <= stack && stack + 8 <= NVPN
    && s.table.Keys == Interval(956, 956 + PageTables(n)) + Interval(959, 960) + Interval(960, 1024)
    && s.pte == Mapped(Mapped(Mapped(map[], PAGES0, n, pages, PTE_U + PTE_W), STACK0, 8, stack, PTE_W),
                       KERN0, 0x1_0000, 0, PTE_W)
  }

  /** Tables needed: one for the page records (if they fill a page), one for the stack, 64 for KERNBASE. */
  function TablesNeeded(n: nat): nat {
    PageTables(n) + 1 + 64
  }

  /** Nothing mapped yet; q is the free list. */
  ghost predicate Empty(s: Space, q: seq<FrameNo>) {
    s.table == map[] && s.pte == map[] && s.free == q
  }

  /** The free list without the k pages that have become tables. */
  ghost predicate Used(s: Space, q: seq<FrameNo>, k: nat) {
    k <= |q| && s.free == q[k..]
  }

  function PageTables(n: nat): nat {
    if n > 0 then 1 else 0
  }

  ghost predicate AfterPages(s: Space, q: seq<FrameNo>, n: nat, pages: int) {
    && n <= 1024 && 0 <= pages && pages + n <= NVPN
    && s.table.Keys == Interval(956, 956 + PageTables(n))
    && s.pte == Mapped(map[], PAGES0, n, pages, PTE_U + PTE_W)
    && Used(s, q, PageTables(n))
  }

  ghost predicate AfterStack(s: Space, q: seq<FrameNo>, n: nat, pages: int, stack: int) {
    && n <= 1024 && 0 <= pages && pages + n <= NVPN && 0 <= stack && stack + 8 <= NVPN
    && s.table.Keys == Interval(956, 956 + PageTables(n)) + Interval(959, 960)
    && s.pte == Mapped(Mapped(map[], PAGES0, n, pages, PTE_U + PTE_W), STACK0, 8, stack, PTE_W)
    && Used(s, q, PageTables(n) + 1)
  }

  lemma PagesOutcome(s: Space, r: Space, ok: bool, q: seq<FrameNo>, n: nat, pages: int)
    requires Empty(s, q) && n <= 1024 && RegionDone(s, r, ok, PAGES0, n, pages, PTE_U + PTE_W)
    ensures ok <==> PageTables(n) <= |q|
    ensures ok ==> AfterPages(r, q, n, pages) && r.managed == s.managed
  {
    hide Mapped, Interval, Missing;
    MissingSlots(s.table, PAGES0, n, 956, 956 + PageTables(n));
  }

  lemma StackOutcome(s: Space, r: Space, ok: bool, q: seq<FrameNo>, n: nat, pages: int, stack: int)
    requires AfterPages(s, q, n, pages) && RegionDone(s, r, ok, STACK0, 8, stack, PTE_W)
    ensures ok <==> PageTables(n) + 1 <= |q|
    ensures ok ==> AfterStack(r, q, n, pages, stack) && r.managed == s.managed
  {
    hide Mapped, Missing;
    MissingSlots(s.table, STACK0, 8, 959, 960);
  }

  lemma KernelOutcome(s: Space, r: Space, ok: bool, q: seq<FrameNo>, n: nat, pages: int, stack: int)
    requires AfterStack(s, q, n, pages, stack) && RegionDone(s, r, ok, KERN0, 0x1_0000, 0, PTE_W)
    ensures ok <==> TablesNeeded(n) <= |q|
    ensures ok ==> KernelMapped(r, n, pages, stack) && Used(r, q, TablesNeeded(n)) && r.managed == s.managed
  {
    hide Mapped, Missing;
    MissingSlots(s.table, KERN0, 0x1_0000, 960, 1024);
  }

  lemma PagesUnmapped(s: Space, q: seq<FrameNo>, n: nat)
    requires Empty(s, q) && n <= 1024
    ensures Unmapped(s, PAGES0, n)
  {
  }

  lemma StackUnmapped(s: Space, q: seq<FrameNo>, n: nat, pages: int)
    requires AfterPages(s, q, n, pages)
    ensures Unmapped(s, STACK0, 8)
  {
  }

  lemma KernelUnmapped(s: Space, q: seq<FrameNo>, n: nat, pages: int, stack: int)
    requires AfterStack(s, q, n, pages, stack)
    ensures Unmapped(s, KERN0, 0x1_0000)
  {
  }

  /** The page numbers of the three calls' arguments. */
  lemma Arguments(npages: nat)
    requires npages <= 0x1_0000
    ensures PGNUM(UPAGES) == PAGES0 && PGNUM(KSTACKTOP - KSTKSIZE) == STACK0 && PGNUM(KERNBASE) == KERN0
    ensures PGNUM(npages * 8) == RecordPages(npages) <= 128
    ensures PGNUM(KSTKSIZE) == 8 && PGNUM(0x1_0000_0000 - KERNBASE) == 0x1_0000 && PGNUM(0) == 0
    ensures Within(UPAGES, RecordPages(npages)) && Within(KSTACKTOP - KSTKSIZE, 8)
    ensures Within(KERNBASE, 0x1_0000) && Within(0, 0x1_0000)
  {
  }

  /**
   The mappings of mem_init, on a directory that so far maps only itself.  Page tables run out
   exactly when there are fewer free pages than the three regions need.
   */
  method MapKernel(m: Machine, pages: Word, bootstack: Word) returns (ok: bool)
    requires m.Valid() && m.npages <= 0x1_0000 && Empty(m.space, m.space.free)
    requires Within(pages, RecordPages(m.npages)) && Within(bootstack, 8)
    modifies m`head, m`space, m`tlb, m.ref, m.link, m.mem
    ensures m.Valid()
    ensures ok <==> TablesNeeded(RecordPages(m.npages)) <= |old(m.space.free)|
    ensures ok ==>
      && KernelMapped(m.space, RecordPages(m.npages), PGNUM(pages), PGNUM(bootstack))
      && m.space.free == old(m.space.free)[TablesNeeded(RecordPages(m.npages))..]
      && m.space.managed == old(m.space.managed)
  {
    hide Machine.Valid, RegionDone, Unmapped, Within, PGNUM, Empty, AfterPages, AfterStack, KernelMapped, RecordPages;
    ghost var s, q, n := m.space, m.space.free, RecordPages(m.npages);
    ghost var p, b := PGNUM(pages), PGNUM(bootstack);
    Arguments(m.npages);
    PagesUnmapped(s, q, n);
    ok := BootMapRegion(m, UPAGES, m.npages * 8, pages, PTE_U + PTE_W);
    ghost var s1 := m.space;
    PagesOutcome(s, s1, ok, q, n, p);
    if !ok {
      return;
    }
    StackUnmapped(s1, q, n, p);
    ok := BootMapRegion(m, KSTACKTOP - KSTKSIZE, KSTKSIZE, bootstack, PTE_W);
    ghost var s2 := m.space;
    StackOutcome(s1, s2, ok, q, n, p, b);
    if !ok {
      return;
    }
    KernelUnmapped(s2, q, n, p, b);
    ok := BootMapRegion(m, KERNBASE, 0x1_0000_0000 - KERNBASE, 0, PTE_W);
    KernelOutcome(s2, m.space, ok, q, n, p, b);
  }

  // -------------------------------------------------- what the processor then finds

  /** Where the memory layout says virtual page v is, outside the virtual page table. */
  function Layout(n: nat, pages: int, stack: int, v: int): Option<Pte>
    requires 0 <= pages && pages + n <= NVPN && 0 <= stack && stack + 8 <= NVPN && IsVpn(v)
  {
    if KERN0 <= v then Some(Pte(v - KERN0, PTE_W + PTE_P))
    else if STACK0 <= v then Some(Pte(stack + (v - STACK0), PTE_W + PTE_P))
    else if PAGES0 <= v < PAGES0 + n then Some(Pte(pages + (v - PAGES0), PTE_U + PTE_W + PTE_P))
    else None
  }

  /**
   Physical memory, the stack and the page records are where the layout puts them; the guard below
   the stack and everything under UTOP are unmapped; the self-map slot shows exactly the directory
   slots in use.
   */
  lemma KernelTranslations(s: Space, dir: FrameNo, n: nat, pages: int, stack: int, v: int)
    requires KernelMapped(s, n, pages, stack) && n <= 1024 && IsVpn(v)
    ensures Dir(v) != SELF ==> Translate(s, dir, v) == Layout(n, pages, stack, v)
    ensures Dir(v) == SELF ==>
      (Translate(s, dir, v).Some? <==>
        Index(v) == SELF || 959 <= Index(v) || (Index(v) == 956 && n > 0))
    ensures v < NUSER || 0xEFC00 <= v < STACK0 ==> Translate(s, dir, v) == None
  {
    SplitVpn(v);
    hide Mapped;
    if Dir(v) == SELF {
      assert Index(v) in s.table <==> Index(v) in Interval(956, 956 + PageTables(n)) || 959 <= Index(v);
    } else {
      LookupKernel(s, n, pages, stack, v);
    }
  }

  lemma LookupKernel(s: Space, n: nat, pages: int, stack: int, v: int)
    requires KernelMapped(s, n, pages, stack) && n <= 1024 && IsVpn(v)
    ensures (if v in s.pte then Some(s.pte[v]) else None) == Layout(n, pages, stack, v)
  {
    hide Mapped;
    var m1 := Mapped(map[], PAGES0, n, pages, PTE_U + PTE_W);
    var m2 := Mapped(m1, STACK0, 8, stack, PTE_W);
    LookupMapped(map[], PAGES0, n, pages, PTE_U + PTE_W, v);
    LookupMapped(m1, STACK0, 8, stack, PTE_W, v);
    LookupMapped(m2, KERN0, 0x1_0000, 0, PTE_W, v);
  }

  /** Round up to whole pages, as the check of the finished directory does. */
  function RoundUpPages(bytes: nat): nat {
    (bytes + 4095) / 4096
  }

  /** Page k of the record array is where the check expects it. */
  predicate PagePlaced(s: Space, dir: FrameNo, pages: int, k: nat) {
    Translate(s, dir, PAGES0 + k).Some? && Translate(s, dir, PAGES0 + k).value.frame == pages + k
  }

  /**
   The check that every page of the record array is mapped holds exactly when the records fill whole
   pages: the mapping drops a partial last page, the check rounds up.
   */
  lemma PagesCheckExactly(s: Space, dir: FrameNo, npages: nat, pages: int, stack: int)
    requires npages <= 0x1_0000 && KernelMapped(s, RecordPages(npages), pages, stack)
    ensures (forall k: nat :: k < RoundUpPages(npages * 8) ==> PagePlaced(s, dir, pages, k)) <==> npages % 512 == 0
  {
    hide KernelMapped, Translate;
    var n, up := RecordPages(npages), RoundUpPages(npages * 8);
    forall k: nat | k < up
      ensures PagePlaced(s, dir, pages, k) <==> k < n
    {
      InKernelMapped(s, n, pages, stack);
      KernelTranslations(s, dir, n, pages, stack, PAGES0 + k);
    }
    if npages % 512 == 0 {
      assert n == up;
    } else {
      assert up == n + 1;
      assert !PagePlaced(s, dir, pages, n);
    }
  }

  lemma InKernelMapped(s: Space, n: nat, pages: int, stack: int)
    requires KernelMapped(s, n, pages, stack)
    ensures 0 <= pages && pages + n <= NVPN && 0 <= stack && stack + 8 <= NVPN
  {
  }
}
