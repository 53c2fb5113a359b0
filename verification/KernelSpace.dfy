/** What memory setup guarantees from then on: the kernel's own pages, and who may use which part of the address space. */
module KernelSpace {
  import opened Base
  import opened Mmu
  import opened AddressSpace
  import opened SpaceLaws
  import opened Representation
  import opened Access
  import opened KernelMap
  import opened MemInit

  // -------------------------------------------------- every run leaves the kernel's part alone

  /** Frames that do not belong to the allocator never become free, nor page tables, nor user pages. */
  lemma {:induction false} RunSparesKernel(s: Space, ops: seq<Op>, f: FrameNo, v: int)
    requires Inv(s) && Legal(s, ops) && f !in s.managed && v >= NUSER
    ensures var r := Run(s, ops);
      && f !in r.managed && f !in r.free && !IsTable(r.table, f)
      && (forall u :: u in r.pte && u < NUSER ==> r.pte[u].frame != f)
      && (v in r.pte <==> v in s.pte) && (v in s.pte ==> r.pte[v] == s.pte[v])
    decreases |ops|
  {
    if ops != [] {
      StepKeepsInv(s, ops[0]);
      StepIsFlat(s, ops[0]);
      RunSparesKernel(Step(s, ops[0]), ops[1..], f, v);
    }
  }

  /**
   After mem_init and over every legal run: page 0, the hole, the kernel's image, its directory and the
   page records stay out of the allocator's hands, and everything else that exists is in them.
   */
  lemma KernelKeepsItsFrames(s: Space, dir: FrameNo, npages: nat, basemem: nat, ops: seq<Op>, f: FrameNo)
    requires Inv(s) && Owns(s, dir, npages, basemem) && Legal(s, ops)
    requires npages <= 0x1_0000 && npages % 512 == 0 && basemem <= 256 <= dir && f < npages
    ensures var r := Run(s, ops);
      var reserved := f == 0 || basemem <= f < 256 || (256 <= f && 4096 * f < 4096 * (dir + 1) + 8 * npages);
      && (reserved <==> f !in r.managed)
      && (reserved ==> f !in r.free && !IsTable(r.table, f) && forall u :: u in r.pte && u < NUSER ==> r.pte[u].frame != f)
  {
    hide Inv, Run, Legal;
    if f !in s.managed {
      RunSparesKernel(s, ops, f, NUSER);
    }
    RunIsSafe(s, ops);
  }

  /**
   Record k is mapped for every k below npages, at UPAGES + 8 * k, to the eight bytes that follow those of
   the records before it, and the frame they are in is never handed out.
   */
  lemma RecordsMapped(s: Space, dir: FrameNo, npages: nat, basemem: nat, stack: int, ops: seq<Op>, k: nat)
    requires Inv(s) && Owns(s, dir, npages, basemem) && KernelMapped(s, RecordPages(npages), dir + 1, stack)
    requires Legal(s, ops) && k < npages <= 0x1_0000 && npages % 512 == 0 && basemem <= 256 <= dir
    ensures var r := Run(s, ops); var la := 0xEF00_0000 + 8 * k;
      var t := Translate(r, dir, la / 4096);
      && t.Some? && t.value.frame * 4096 + la % 4096 == (dir + 1) * 4096 + 8 * k
      && t.value.frame !in r.managed && t.value.frame !in r.free
  {
    hide Inv, Run, Legal, Translate, KernelMapped;
    var n, v := RecordPages(npages), (0xEF00_0000 + 8 * k) / 4096;
    RecordAddress(npages, k);
    InKernelMapped(s, n, dir + 1, stack);
    KernelTranslations(s, dir, n, dir + 1, stack, v);
    StaticTranslation(s, ops, dir, v);
    RunSparesKernel(s, ops, dir + 1 + (v - PAGES0), v);
  }

  lemma RecordAddress(npages: nat, k: nat)
    requires k < npages <= 0x1_0000 && npages % 512 == 0
    ensures var v := (0xEF00_0000 + 8 * k) / 4096;
      && PAGES0 <= v < PAGES0 + RecordPages(npages) && v == PAGES0 + 8 * k / 4096 && v / 1024 == 956 && RecordPages(npages) <= 128
      && (0xEF00_0000 + 8 * k) % 4096 == 8 * k % 4096
    ensures RecordPages(npages) == (npages * 8 + 4095) / 4096
  {
  }

  lemma StaticTranslation(s: Space, ops: seq<Op>, dir: FrameNo, v: int)
    requires Inv(s) && Legal(s, ops) && NUSER <= v < NVPN && Dir(v) != SELF
    ensures Translate(Run(s, ops), dir, v) == Translate(s, dir, v)
  {
    hide Inv, Run, Legal;
    RunStatic(s, ops, v);
  }

  lemma {:induction false} RunStatic(s: Space, ops: seq<Op>, v: int)
    requires Inv(s) && Legal(s, ops) && v >= NUSER
    ensures (v in Run(s, ops).pte <==> v in s.pte) && (v in s.pte ==> Run(s, ops).pte[v] == s.pte[v])
    decreases |ops|
  {
    if ops != [] {
      StepKeepsInv(s, ops[0]);
      StepIsFlat(s, ops[0]);
      RunStatic(Step(s, ops[0]), ops[1..], v);
    }
  }

  // -------------------------------------------------- who may use what

  /**
   After mem_init: the stack and all of physical memory are for the kernel, which may write them; users
   may use the page records, which the code lets them write, and read the present pages of the virtual
   page table, and nothing else.  Above ULIM nothing is theirs.
   */
  lemma KernelRights(mem: seq<Frame>, dir: FrameNo, s: Space, n: nat, pages: int, stack: int, v: int)
    requires MemRep(mem, dir, s) && KernelMapped(s, n, pages, stack) && n <= 1024 && IsVpn(v)
    ensures 0xF0000 <= v ==> RightsOf(mem, dir, v) == Some(Rights(false, true))
    ensures 0xEFFF8 <= v < 0xF0000 ==> RightsOf(mem, dir, v) == Some(Rights(false, true))
    ensures 0xEF000 <= v < 0xEF000 + n ==> RightsOf(mem, dir, v) == Some(Rights(true, true))
    ensures 0xEF400 <= v < 0xEF800 ==>
      RightsOf(mem, dir, v) == if HardwareWalk(mem, dir, v).Some? then Some(Rights(true, false)) else None
    ensures (RightsOf(mem, dir, v).Some? && RightsOf(mem, dir, v).value.user) <==>
            0xEF000 <= v < 0xEF000 + n || (0xEF400 <= v < 0xEF800 && HardwareWalk(mem, dir, v).Some?)
  {
    hide KernelMapped, Translate, MemRep;
    InKernelMapped(s, n, pages, stack);
    LookupKernel(s, n, pages, stack, v);
    RightsExist(mem, dir, v);
    if v / 1024 == 957 {
      RightsOfTable(mem, dir, s, v);
    } else {
      RightsOfPage(mem, dir, s, v);
    }
  }

  /** No legal run ever lets users in above ULIM, or changes what the kernel may do there. */
  lemma KernelRightsStay(mem: seq<Frame>, mem': seq<Frame>, dir: FrameNo, s: Space, n: nat, pages: int, stack: int,
      ops: seq<Op>, v: int)
    requires MemRep(mem, dir, s) && KernelMapped(s, n, pages, stack) && n <= 1024
    requires Inv(s) && Legal(s, ops) && MemRep(mem', dir, Run(s, ops)) && 0xEF800 <= v < 0x10_0000
    ensures RightsOf(mem', dir, v) == RightsOf(mem, dir, v)
    ensures RightsOf(mem', dir, v).Some? ==> RightsOf(mem', dir, v).value == Rights(false, true)
  {
    hide KernelMapped, MemRep, Inv, Legal, Run;
    RunStatic(s, ops, v);
    RightsOfPage(mem, dir, s, v);
    RightsOfPage(mem', dir, Run(s, ops), v);
    KernelRights(mem, dir, s, n, pages, stack, v);
    InKernelMapped(s, n, pages, stack);
    LookupKernel(s, n, pages, stack, v);
  }
}
