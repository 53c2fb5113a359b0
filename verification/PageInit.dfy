/** page_init: which physical pages start out free, and in which order they are handed out. */
module PageInit {
  import opened Base
  import opened Mmu
  import opened AddressSpace
  import opened Representation
  import opened PageManager

  /** Page numbers of IOPHYSMEM and EXTPHYSMEM. */
  const IO_PAGE := 160
  const EXT_PAGE := 256

  /** Pages hi-1, hi-2, .., lo. */
  function Down(hi: nat, lo: nat): (s: seq<FrameNo>)
    requires hi <= 0x1_0000
    ensures |s| == (if lo <= hi then hi - lo else 0) && forall i :: 0 <= i < |s| ==> s[i] == hi - 1 - i
  {
    if hi <= lo then [] else [hi - 1] + Down(hi - 1, lo)
  }

  lemma NoneDown(lo: nat, base: seq<FrameNo>)
    requires lo <= 0x1_0000
    ensures Down(lo, lo) + base == base
  {
  }

  lemma OneMoreDown(hi: nat, lo: nat, base: seq<FrameNo>)
    requires lo <= hi < 0x1_0000
    ensures [hi] + (Down(hi, lo) + base) == Down(hi + 1, lo) + base
  {
    assert [hi] + (Down(hi, lo) + base) == ([hi] + Down(hi, lo)) + base;
  }

  lemma DownMembers(hi: nat, lo: nat, f: FrameNo)
    requires hi <= 0x1_0000
    ensures f in Down(hi, lo) <==> lo <= f < hi
  {
    if lo <= f < hi {
      assert Down(hi, lo)[hi - 1 - f] == f;
    }
  }

  /** The first page past the kernel image, the directory and the page records, which end at `end`. */
  function FirstFree(end: nat): (f: nat)
    ensures EXT_PAGE <= f
  {
    if end <= EXT_PAGE * 4096 then EXT_PAGE else (end + 4095) / 4096
  }

  /** Extended memory from the top down, then base memory without page 0. */
  function InitialFree(npages: nat, basemem: nat, end: nat): seq<FrameNo>
    requires npages <= 0x1_0000 && basemem <= EXT_PAGE
  {
    Down(npages, FirstFree(end)) + Down(basemem, 1)
  }

  function InitialSpace(npages: nat, basemem: nat, end: nat): Space
    requires npages <= 0x1_0000 && basemem <= EXT_PAGE
  {
    var free := InitialFree(npages, basemem, end);
    Space((set f | f in free), free, map[], map[])
  }

  /** The counter page_init gives a page: 0 if free, -1 in the hole below 1MB, 1 if in use. */
  function InitialCount(basemem: nat, end: nat, f: nat): Count {
    if f == 0 then 1
    else if f < basemem then 0
    else if f < EXT_PAGE then 65535
    else if f < FirstFree(end) then 1
    else 0
  }

  /** The first i page records are initialised. */
  ghost predicate CountsUpTo(refs: seq<Count>, basemem: nat, end: nat, i: nat) {
    i <= |refs| && forall f :: 0 <= f < i ==> refs[f] == InitialCount(basemem, end, f)
  }

  /** Among the first i pages, those not on the list s have a NULL link. */
  ghost predicate NullsUpTo(links: seq<PagePtr>, s: seq<FrameNo>, i: nat) {
    i <= |links| && forall f: FrameNo :: f < i && f !in s ==> links[f] == None
  }

  lemma KeepList(links: seq<PagePtr>, head: PagePtr, s: seq<FrameNo>, f: FrameNo)
    requires ListIs(links, head, s) && f !in s && f < |links|
    ensures ListIs(links[f := None], head, s)
  {
    forall i | 0 <= i < |s|
      ensures s[i] < |links[f := None]| && links[f := None][s[i]] == Next(s, i + 1)
    {
      assert s[i] in s;
    }
  }

  lemma FreeMembers(npages: nat, basemem: nat, end: nat, f: FrameNo)
    requires npages <= 0x1_0000 && basemem <= EXT_PAGE
    ensures f in InitialFree(npages, basemem, end) <==> 1 <= f < basemem || FirstFree(end) <= f < npages
    ensures f in InitialFree(npages, basemem, end) <==>
            1 <= f < basemem || (0x10_0000 <= f * 4096 && end <= f * 4096 && f < npages)
  {
    DownMembers(npages, FirstFree(end), f);
    DownMembers(basemem, 1, f);
  }

  /** The list runs from the highest free page down, so no page is on it twice. */
  lemma FreeListDescends(npages: nat, basemem: nat, end: nat, i: nat, j: nat)
    requires npages <= 0x1_0000 && basemem <= EXT_PAGE && i < j < |InitialFree(npages, basemem, end)|
    ensures InitialFree(npages, basemem, end)[i] > InitialFree(npages, basemem, end)[j]
  {
  }

  /** A page that is not on the list has a counter that page_free panics on. */
  lemma ReservedCounted(refs: seq<Count>, npages: nat, basemem: nat, end: nat, f: FrameNo)
    requires npages <= 0x1_0000 && basemem <= EXT_PAGE && f < npages == |refs| && CountsUpTo(refs, basemem, end, npages)
    ensures refs[f] == 0 <==> f in InitialFree(npages, basemem, end)
    ensures basemem <= f < 0x10_0000 / 4096 && f > 0 ==> refs[f] == 65535
    ensures f == 0 || (0x10_0000 <= f * 4096 < end) ==> refs[f] == 1
  {
    FreeMembers(npages, basemem, end, f);
  }

  lemma InitialInv(npages: nat, basemem: nat, end: nat)
    requires npages <= 0x1_0000 && basemem <= EXT_PAGE
    ensures var s := InitialSpace(npages, basemem, end);
      Inv(s) && forall f :: RefCount(s, f) == 0
  {
    var s := InitialSpace(npages, basemem, end);
    assert NoDup(s.free);
    forall f
      ensures RefCount(s, f) == 0
    {
      assert Mappers(s.pte, f) == {} && Slots(s.table, f) == {};
    }
  }

  lemma InitialRep(refs: seq<Count>, links: seq<PagePtr>, head: PagePtr, mem: seq<Frame>, dir: FrameNo,
      npages: nat, basemem: nat, end: nat)
    requires npages == |refs| == |links| == |mem| <= 0x1_0000 && basemem <= EXT_PAGE
    requires EXT_PAGE <= dir < FirstFree(end) < npages
    requires ListIs(links, head, InitialFree(npages, basemem, end)) && CountsUpTo(refs, basemem, end, npages)
    requires OnlySelf(mem[dir], dir)
    ensures var s := InitialSpace(npages, basemem, end);
      Rep(links, head, mem, dir, s, map[]) && CountRep(refs, s)
  {
    InitialInv(npages, basemem, end);
    var s := InitialSpace(npages, basemem, end);
    forall f | f in s.managed
      ensures f < npages && f != dir && refs[f] == 0
    {
      FreeMembers(npages, basemem, end, f);
    }
    assert MemRep(mem, dir, s);
  }

  /** A directory in which only the self-map slot is present. */
  ghost predicate OnlySelf(d: Frame, dir: FrameNo) {
    forall i :: 0 <= i < NPDENTRIES ==> d[i] == if i == SELF then Encode(Pte(dir, PTE_U + PTE_P)) else 0
  }

  /** The state after i records: the list so far is s. */
  ghost predicate Records(refs: seq<Count>, links: seq<PagePtr>, head: PagePtr, s: seq<FrameNo>,
      basemem: nat, end: nat, i: nat) {
    ListIs(links, head, s) && NullsUpTo(links, s, i) && CountsUpTo(refs, basemem, end, i)
  }

  lemma NextFree(refs: seq<Count>, links: seq<PagePtr>, head: PagePtr, s: seq<FrameNo>,
      basemem: nat, end: nat, f: FrameNo)
    requires Records(refs, links, head, s, basemem, end, f) && f < |links| == |refs|
    requires InitialCount(basemem, end, f) == 0 && forall g :: g in s ==> g < f
    ensures Records(refs[f := 0], links[f := head], Some(f), [f] + s, basemem, end, f + 1)
  {
    ListPush(links, head, s, f);
  }

  lemma NextReserved(refs: seq<Count>, links: seq<PagePtr>, head: PagePtr, s: seq<FrameNo>,
      basemem: nat, end: nat, f: FrameNo, c: Count)
    requires Records(refs, links, head, s, basemem, end, f) && f < |links| == |refs|
    requires InitialCount(basemem, end, f) == c && forall g :: g in s ==> g < f
    ensures Records(refs[f := c], links[f := None], head, s, basemem, end, f + 1)
  {
    KeepList(links, head, s, f);
  }

  method SetRecord(m: Machine, i: nat, c: Count, l: PagePtr)
    requires m.Shape() && i < m.npages
    modifies m.ref, m.link
    ensures m.ref[..] == old(m.ref[..])[i := c] && m.link[..] == old(m.link[..])[i := l]
  {
    m.ref[i] := c;
    m.link[i] := l;
  }

  /** The allocator invariant, with every record defined and exactly the right pages free, in order. */
  ghost predicate Initialised(m: Machine, basemem: nat, end: nat)
    reads m, m.ref, m.link, m.mem
  {
    && m.npages <= 0x1_0000 && basemem <= EXT_PAGE
    && m.Valid()
    && m.space == InitialSpace(m.npages, basemem, end)
    && CountsUpTo(m.ref[..], basemem, end, m.npages)
    && NullsUpTo(m.link[..], m.space.free, m.npages)
  }

  /** The records of the pages below 1MB: the base memory but for page 0, and the hole. */
  method InitLow(m: Machine, basemem: nat, end: nat)
    requires m.Shape() && m.npages > EXT_PAGE && basemem <= EXT_PAGE
    modifies m`head, m.ref, m.link
    ensures Records(m.ref[..], m.link[..], m.head, Down(basemem, 1), basemem, end, EXT_PAGE)
  {
    hide Records, FirstFree, InitialCount, ListIs;
    FirstRecord(m, basemem, end);
    SetRecord(m, 0, 1, None);
    m.head := None;
    var i := 1;
    while i < basemem
      invariant 1 <= i && (i <= basemem || i == 1)
      invariant Records(m.ref[..], m.link[..], m.head, Down(i, 1), basemem, end, i)
    {
      BaseTurn(basemem, end, i);
      NextFree(m.ref[..], m.link[..], m.head, Down(i, 1), basemem, end, i);
      SetRecord(m, i, 0, m.head);
      m.head := Some(i);
      i := i + 1;
    }
    ghost var base := Down(basemem, 1);
    assert base == Down(i, 1);
    while i < EXT_PAGE
      invariant 1 <= i <= EXT_PAGE && basemem <= i
      invariant Records(m.ref[..], m.link[..], m.head, base, basemem, end, i)
    {
      HoleTurn(basemem, end, i);
      NextReserved(m.ref[..], m.link[..], m.head, base, basemem, end, i, 65535);
      SetRecord(m, i, 65535, None);
      i := i + 1;
    }
  }

  /** The pages in use from 1MB on; the test on the address of page i panics when there is no such page. */
  method InitInUse(m: Machine, basemem: nat, end: nat) returns (panicked: bool)
    requires m.Shape() && m.npages > EXT_PAGE && basemem <= EXT_PAGE
    requires Records(m.ref[..], m.link[..], m.head, Down(basemem, 1), basemem, end, EXT_PAGE)
    modifies m.ref, m.link
    ensures panicked <==> FirstFree(end) >= m.npages
    ensures !panicked ==> Records(m.ref[..], m.link[..], m.head, Down(basemem, 1), basemem, end, FirstFree(end))
  {
    hide Records, FirstFree, InitialCount, ListIs;
    ghost var base, first := Down(basemem, 1), FirstFree(end);
    var i := EXT_PAGE;
    KernelTurn(basemem, end, i);
    while true
      invariant EXT_PAGE <= i <= first && i <= m.npages
      invariant Records(m.ref[..], m.link[..], m.head, base, basemem, end, i)
      decreases m.npages - i
    {
      KernelTurn(basemem, end, i);
      if i >= m.npages {
        return true;
      }
      if i * 4096 >= end {
        return false;
      }
      NextReserved(m.ref[..], m.link[..], m.head, base, basemem, end, i, 1);
      SetRecord(m, i, 1, None);
      i := i + 1;
    }
  }

  /** The free pages of extended memory. */
  method InitFree(m: Machine, basemem: nat, end: nat, start: nat)
    requires m.Shape() && basemem <= EXT_PAGE && EXT_PAGE <= start == FirstFree(end) < m.npages
    requires Records(m.ref[..], m.link[..], m.head, Down(basemem, 1), basemem, end, start)
    modifies m`head, m.ref, m.link
    ensures Records(m.ref[..], m.link[..], m.head, InitialFree(m.npages, basemem, end), basemem, end, m.npages)
  {
    hide Records, FirstFree, InitialCount, ListIs, Down;
    ghost var base := Down(basemem, 1);
    NoneDown(start, base);
    var i := start;
    while i < m.npages
      invariant start <= i <= m.npages
      invariant Records(m.ref[..], m.link[..], m.head, Down(i, start) + base, basemem, end, i)
    {
      ExtendedTurn(basemem, end, i);
      OneMoreDown(i, start, base);
      NextFree(m.ref[..], m.link[..], m.head, Down(i, start) + base, basemem, end, i);
      SetRecord(m, i, 0, m.head);
      m.head := Some(i);
      i := i + 1;
    }
  }

  /**
   Initialises every page record.  `end` is the physical address just past the records.  page2kva
   panics on a page that does not exist, which happens exactly when the records reach the last page.
   */
  method Init(m: Machine, basemem: nat, end: nat) returns (panicked: bool)
    requires m.Shape() && m.npages > EXT_PAGE && basemem <= EXT_PAGE
    requires EXT_PAGE <= m.dir < FirstFree(end) && m.dir < m.npages && OnlySelf(m.mem[m.dir], m.dir)
    modifies m`head, m`space, m`tlb, m.ref, m.link
    ensures panicked <==> FirstFree(end) >= m.npages
    ensures panicked <==> (m.npages - 1) * 4096 < end
    ensures !panicked ==> Initialised(m, basemem, end)
  {
    hide Initialised, Records, OnlySelf, InitialFree, InitialSpace;
    InitLow(m, basemem, end);
    panicked := InitInUse(m, basemem, end);
    if !panicked {
      InitFree(m, basemem, end, if end <= EXT_PAGE * 4096 then EXT_PAGE else (end + 4095) / 4096);
      m.space := InitialSpace(m.npages, basemem, end);
      m.tlb := map[];
      LastRecord(m, basemem, end);
    }
  }

  lemma FirstRecord(m: Machine, basemem: nat, end: nat)
    requires m.Shape() && m.npages > EXT_PAGE
    ensures Records(m.ref[..][0 := 1], m.link[..][0 := None], None, Down(1, 1), basemem, end, 1)
  {
  }

  lemma BaseTurn(basemem: nat, end: nat, i: nat)
    requires 1 <= i < basemem <= EXT_PAGE
    ensures InitialCount(basemem, end, i) == 0 && (forall g :: g in Down(i, 1) ==> g < i)
    ensures [i] + Down(i, 1) == Down(i + 1, 1)
  {
  }

  lemma HoleTurn(basemem: nat, end: nat, i: nat)
    requires 1 <= i < EXT_PAGE && basemem <= i
    ensures InitialCount(basemem, end, i) == 65535 && forall g :: g in Down(basemem, 1) ==> g < i
  {
  }

  /** The test on the virtual address of the page: the page is in use while it starts before `end`. */
  lemma KernelTurn(basemem: nat, end: nat, i: nat)
    requires EXT_PAGE <= i <= FirstFree(end) && basemem <= EXT_PAGE
    ensures i * 4096 < end <==> i < FirstFree(end)
    ensures i * 4096 < end ==> InitialCount(basemem, end, i) == 1
    ensures forall g :: g in Down(basemem, 1) ==> g < i
  {
  }

  lemma ExtendedTurn(basemem: nat, end: nat, i: nat)
    requires EXT_PAGE <= FirstFree(end) <= i < 0x1_0000 && basemem <= EXT_PAGE
    ensures InitialCount(basemem, end, i) == 0
    ensures forall g :: g in Down(i, FirstFree(end)) + Down(basemem, 1) ==> g < i
  {
  }

  lemma LastRecord(m: Machine, basemem: nat, end: nat)
    requires m.Shape() && basemem <= EXT_PAGE && EXT_PAGE <= m.dir < FirstFree(end) < m.npages
    requires OnlySelf(m.mem[m.dir], m.dir)
    requires Records(m.ref[..], m.link[..], m.head, InitialFree(m.npages, basemem, end), basemem, end, m.npages)
    requires m.space == InitialSpace(m.npages, basemem, end) && m.tlb == map[]
    ensures Initialised(m, basemem, end)
  {
    InitialRep(m.ref[..], m.link[..], m.head, m.mem[..], m.dir, m.npages, basemem, end);
  }

  /** The assertions on every free page: none of the reserved pages is on the list. */
  lemma FreePagesChecked(npages: nat, basemem: nat, end: nat, f: FrameNo)
    requires EXT_PAGE < npages <= 0x1_0000 && basemem <= IO_PAGE && f in InitialFree(npages, basemem, end)
    ensures 0 < f < npages
    ensures f != IO_PAGE && f != EXT_PAGE - 1
    ensures f < EXT_PAGE || end <= f * 4096
    ensures end > EXT_PAGE * 4096 ==> f != EXT_PAGE
  {
    FreeMembers(npages, basemem, end, f);
  }
}
