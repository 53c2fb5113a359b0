/** Conversions between page numbers, physical addresses and the kernel's addresses, and where they panic. */
module KernelAddress {
  import opened Base
  import opened Mmu
  import opened AddressSpace
  import opened KernelMap

  /** The physical address behind a kernel address; addresses below KERNBASE panic. */
  function Paddr(kva: Word): Option<Word> {
    if kva < KERNBASE then None else Some(kva - KERNBASE)
  }

  /** The kernel address of a physical one, in 32 bits; pages that do not exist panic. */
  function Kaddr(npages: nat, pa: Word): Option<Word> {
    if PGNUM(pa) >= npages then None else Some((pa + KERNBASE) % 0x1_0000_0000)
  }

  /** The page record of a physical address; pages that do not exist panic. */
  function Pa2page(npages: nat, pa: Word): Option<FrameNo> {
    if PGNUM(pa) >= npages then None else Some(PGNUM(pa))
  }

  function Page2kva(npages: nat, f: FrameNo): Option<Word> {
    Kaddr(npages, Page2pa(f))
  }

  /** A page record comes back from any address in its page, and exactly from those. */
  lemma PageRoundTrip(npages: nat, f: FrameNo, pa: Word)
    requires f < npages
    ensures Pa2page(npages, pa) == Some(f) <==> Page2pa(f) <= pa < Page2pa(f) + PGSIZE
  {
  }

  /** The kernel address of a page exists exactly if the page does, and leads back to its record. */
  lemma PageAddressRoundTrip(npages: nat, f: FrameNo)
    requires npages <= 0x1_0000
    ensures Page2kva(npages, f).Some? <==> f < npages
    ensures f < npages ==>
      && Paddr(Page2kva(npages, f).value) == Some(Page2pa(f))
      && Pa2page(npages, Paddr(Page2kva(npages, f).value).value) == Some(f)
  {
  }

  /**
   Converting to a kernel address and back returns the physical address exactly when it is among the
   256MB that fit above KERNBASE; beyond, the sum wraps around, without a panic.
   */
  lemma PhysicalRoundTripExactly(npages: nat, pa: Word)
    requires PGNUM(pa) < npages
    ensures Kaddr(npages, pa).Some?
    ensures Paddr(Kaddr(npages, pa).value) == Some(pa) <==> pa < 0x1_0000_0000 - KERNBASE
  {
  }

  /** Kernel addresses of existing pages are those whose conversion both ways succeeds. */
  lemma KernelRoundTripExactly(npages: nat, kva: Word)
    requires npages <= 0x1_0000
    ensures (Paddr(kva).Some? && Kaddr(npages, Paddr(kva).value) == Some(kva)) <==>
            KERNBASE <= kva < KERNBASE + npages * 4096
  {
  }

  /** Once the kernel's mappings stand, the processor translates a kernel address to the same physical address. */
  lemma KernelAddressTranslates(s: Space, dir: FrameNo, n: nat, pages: int, stack: int, npages: nat, pa: Word)
    requires KernelMapped(s, n, pages, stack) && n <= 1024 && npages <= 0x1_0000 && PGNUM(pa) < npages
    ensures Kaddr(npages, pa).Some?
    ensures var kva := Kaddr(npages, pa).value;
      var t := Translate(s, dir, PGNUM(kva));
      t.Some? && Page2pa(t.value.frame) + PGOFF(kva) == pa
  {
    hide KernelMapped, Translate;
    InKernelMapped(s, n, pages, stack);
    var kva := Kaddr(npages, pa).value;
    assert PGNUM(kva) == KERN0 + PGNUM(pa) && PGOFF(kva) == PGOFF(pa);
    assert Dir(PGNUM(kva)) >= 960;
    KernelTranslations(s, dir, n, pages, stack, PGNUM(kva));
  }
}
