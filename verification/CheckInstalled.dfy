/** The kernel's last self test, with its page directory in use: pages are read and written where they are mapped. */
module CheckInstalled {
  import opened Base
  import opened Mmu
  import opened AddressSpace
  import opened SpaceLaws
  import opened Representation
  import opened PageManager
  import opened Runs
  import opened CheckPage
  import CheckAlloc

  /** The page of the virtual page table that shows the table of slot 0. */
  const STALE := Vpn(SELF, 0)

  const BYTES1: Word := 0x0101_0101
  const BYTES2: Word := 0x0202_0202
  const BYTES3: Word := 0x0303_0303

  /** A moment of the test; the free pages other than the three stay where they are. */
  ghost predicate Installing(m: Machine, c: Setup, rest: seq<FrameNo>, t: Moment)
    reads m, m.ref, m.link, m.mem
  {
    && m.Valid() && m.loaded && MomentOk(c, t) && m.space == SpaceAt(c, t)
    && c.pp0 !in rest && c.pp1 !in rest && c.pp2 !in rest
  }

  lemma WithoutFree(s: Space)
    requires Inv(s)
    ensures Inv(s.(free := [])) && forall f :: RefCount(s.(free := []), f) == RefCount(s, f)
  {
  }

  lemma ThreeTaken(s: Space)
    requires Inv(s) && |s.free| >= 3 && 0 !in s.table && 1 !in s.table
    ensures var c, rest := Setup(s.(free := []), s.free[0], s.free[1], s.free[2]), s.free[3..];
      && SetupOk(c) && s.free == [c.pp0, c.pp1, c.pp2] + rest
      && c.pp0 !in rest && c.pp1 !in rest && c.pp2 !in rest
      && Held(s.(free := rest), c.pp0) && Alloc(Alloc(Alloc(s))) == s.(free := rest)
      && Release(s.(free := rest), c.pp0) == SpaceAt(c, Moment([c.pp0] + rest, None, None, None))
  {
    WithoutFree(s);
    assert s.free[0] in s.free && s.free[1] in s.free && s.free[2] in s.free;
    assert s.free[1..][1..][1..] == s.free[3..];
    assert RefCount(s.(free := s.free[3..]), s.free[0]) == RefCount(s, s.free[0]);
  }

  /** Three pages are handed out and the first is freed again. */
  method TakeThree(m: Machine) returns (pp0: FrameNo, pp1: FrameNo, pp2: FrameNo, ghost c: Setup, ghost rest: seq<FrameNo>)
    requires m.Valid() && m.loaded && |m.space.free| >= 3 && 0 !in m.space.table && 1 !in m.space.table
    modifies m`head, m`space, m.ref, m.link, m.mem
    ensures c == Setup(old(m.space).(free := []), pp0, pp1, pp2)
    ensures old(m.space.free) == [pp0, pp1, pp2] + rest
    ensures Installing(m, c, rest, Moment([pp0] + rest, None, None, None))
  {
    hide Machine.Valid, SetupOk, Held;
    ghost var s := m.space;
    FreeAreManaged(m);
    ThreeTaken(s);
    var p0 := m.PageAlloc(false);
    var p1 := m.PageAlloc(false);
    var p2 := m.PageAlloc(false);
    pp0, pp1, pp2 := p0.value, p1.value, p2.value;
    FreeHeld(m, pp0);
    c, rest := Setup(s.(free := []), pp0, pp1, pp2), s.free[3..];
  }

  lemma NotATable(m: Machine, c: Setup, t: Moment, f: FrameNo)
    requires m.Valid() && MomentOk(c, t) && m.space == SpaceAt(c, t) && f in {c.pp1, c.pp2}
    ensures f < m.npages && f < m.mem.Length && f != m.dir && !IsTable(m.space.table, f)
  {
    forall d | d in c.base.table
      ensures c.base.table[d] != f
    {
      TableIsCounted(c.base, d);
    }
  }

  /** Fills a page through the kernel's own mapping. */
  method FillPage(m: Machine, f: FrameNo, w: Word, ghost c: Setup, ghost rest: seq<FrameNo>, ghost t: Moment)
    requires Installing(m, c, rest, t) && f in {c.pp1, c.pp2}
    modifies m.mem
    ensures Installing(m, c, rest, t) && f < m.mem.Length
    ensures m.mem[..] == old(m.mem[..])[f := seq(1024, _ => w)]
  {
    hide ListRep, CountRep, Inv, FrameCoherent, MemRep, IsTable, MomentOk, SpaceAt;
    NotATable(m, c, t, f);
    WriteOther(m.mem[..], m.dir, m.space, f, seq(1024, _ => w));
    ghost var mem := m.mem[..];
    m.mem[f] := seq(1024, _ => w);
    assert m.mem[..] == mem[f := m.mem[f]];
  }

  lemma FirstInsert(c: Setup, rest: seq<FrameNo>)
    requires SetupOk(c)
    ensures Insert(SpaceAt(c, Moment([c.pp0] + rest, None, None, None)), c.pp1, 1, PTE_W)
         == SpaceAt(c, Moment(rest, Some(0), None, Some(Pte(c.pp1, RW))))
  {
    NoBasePages(c);
    var s := SpaceAt(c, Moment([c.pp0] + rest, None, None, None));
    assert !HasTable(s, 1) && ([c.pp0] + rest)[1..] == rest;
  }

  /** The frame contents that an insert or a removal leaves alone. */
  lemma ContentsKept(a: Snapshot, b: Snapshot, s: Space, dir: FrameNo, f: FrameNo)
    requires Kept(a, b, s, dir) && f < |a.mem| && f != dir && !IsTable(s.table, f)
    ensures f < |b.mem| && b.mem[f] == a.mem[f]
  {
  }

  /** pp1 is mapped, with pp0 as page table, and read back where it is mapped. */
  method MapFirst(m: Machine, pp1: FrameNo, pp2: FrameNo, ghost c: Setup, ghost rest: seq<FrameNo>)
    requires Installing(m, c, rest, Moment([c.pp0] + rest, None, None, None)) && pp1 == c.pp1 && pp2 == c.pp2
    requires pp1 < m.mem.Length && pp2 < m.mem.Length
    requires m.mem[pp1] == seq(1024, _ => BYTES1) && m.mem[pp2] == seq(1024, _ => BYTES2)
    modifies m`head, m`space, m`tlb, m.ref, m.link, m.mem
    ensures Installing(m, c, rest, Moment(rest, Some(0), None, Some(Pte(pp1, RW))))
    ensures m.mem[pp2] == seq(1024, _ => BYTES2)
  {
    hide MemRep, Kept, Translate, Inv, CountRep, Insert, ListRep, IsTable, FrameCoherent;
    ghost var t0, t := Moment([c.pp0] + rest, None, None, None), Moment(rest, Some(0), None, Some(Pte(pp1, RW)));
    ghost var before := m.Snap();
    FirstInsert(c, rest);
    ObserveAt(m, c, t0);
    RoomForFirst(c, rest);
    var r := m.PageInsert(pp1, PGSIZE, PTE_W);
    assert r == 0;
    NotATable(m, c, t, pp1);
    NotATable(m, c, t, pp2);
    ContentsKept(before, m.Snap(), m.space, m.dir, pp1);
    ContentsKept(before, m.Snap(), m.space, m.dir, pp2);
    ObserveAt(m, c, t);
    assert m.ref[pp1] == 1;
    var w := m.LoadWord(PGSIZE);
    assert w == BYTES1;
  }

  lemma RoomForFirst(c: Setup, rest: seq<FrameNo>)
    requires SetupOk(c)
    ensures var s := SpaceAt(c, Moment([c.pp0] + rest, None, None, None));
      !NoRoom(s, 1) && c.pp1 in s.managed && (c.pp1 !in rest ==> c.pp1 !in s.free)
  {
  }

  /** pp2 takes the place of pp1, which becomes free; it is read and written where it is mapped. */
  method MapSecond(m: Machine, pp1: FrameNo, pp2: FrameNo, ghost c: Setup, ghost rest: seq<FrameNo>)
    requires Installing(m, c, rest, Moment(rest, Some(0), None, Some(Pte(pp1, RW)))) && pp1 == c.pp1 && pp2 == c.pp2
    requires pp2 < m.mem.Length && m.mem[pp2] == seq(1024, _ => BYTES2)
    modifies m`head, m`space, m`tlb, m.ref, m.link, m.mem
    ensures Installing(m, c, rest, Moment([pp1] + rest, Some(0), None, Some(Pte(pp2, RW))))
  {
    hide MemRep, Kept, Translate, Inv, CountRep, Insert, ListRep, IsTable, FrameCoherent;
    ghost var e1, e2 := Some(Pte(pp1, RW)), Some(Pte(pp2, RW));
    ghost var before := m.Snap();
    ObserveAt(m, c, Moment(rest, Some(0), None, e1));
    InsertDuring(c, rest, None, e1, 1, pp2, PTE_W);
    var r := m.PageInsert(pp2, PGSIZE, PTE_W);
    ghost var t := Moment([pp1] + rest, Some(0), None, e2);
    NotATable(m, c, t, pp2);
    ContentsKept(before, m.Snap(), m.space, m.dir, pp2);
    ObserveAt(m, c, t);
    var w := m.LoadWord(PGSIZE);
    assert w == BYTES2;
    assert m.ref[pp2] == 1 && m.ref[pp1] == 0;
    m.StoreWord(PGSIZE, BYTES3);
    assert m.mem[..][pp2][0] == BYTES3;
    assert m.mem[pp2][0] == BYTES3;
  }

  method Unmap(m: Machine, pp1: FrameNo, pp2: FrameNo, ghost c: Setup, ghost rest: seq<FrameNo>)
    requires Installing(m, c, rest, Moment([pp1] + rest, Some(0), None, Some(Pte(pp2, RW)))) && pp1 == c.pp1 && pp2 == c.pp2
    modifies m`head, m`space, m`tlb, m.ref, m.link, m.mem
    ensures Installing(m, c, rest, Moment([pp2, pp1] + rest, Some(0), None, None))
  {
    hide MemRep, Kept, Translate, Inv, CountRep, Remove, ListRep, IsTable, FrameCoherent;
    RemoveDuring(c, [pp1] + rest, None, Some(Pte(pp2, RW)), 1);
    m.PageRemove(PGSIZE);
    assert [pp2] + ([pp1] + rest) == [pp2, pp1] + rest;
    ObserveAt(m, c, Moment([pp2, pp1] + rest, Some(0), None, None));
    assert m.ref[pp2] == 0;
  }

  // -------------------------------------------------- taking the table back by hand

  /** All that holds at the end, whatever the buffer had cached of the table that is gone. */
  ghost predicate Settled(m: Machine)
    reads m, m.ref, m.link, m.mem
  {
    && m.AllocOk() && m.TablesRep() && m.CountOk() && Inv(m.space)
    && FrameCoherent(m.space, m.dir, m.tlb - {STALE})
  }

  lemma StaleExactly(c: Setup, free: seq<FrameNo>, dir: FrameNo, tlb: Tlb)
    requires SetupOk(c) && FrameCoherent(During(c, free, Some(0), None, None), dir, tlb)
    ensures FrameCoherent(During(c, free, None, None, None), dir, tlb - {STALE})
    ensures FrameCoherent(During(c, free, None, None, None), dir, tlb) <==> STALE !in tlb
  {
    var s, s' := During(c, free, Some(0), None, None), During(c, free, None, None, None);
    forall v | IsVpn(v) && v != STALE
      ensures Translate(s', dir, v) == Translate(s, dir, v)
    {
      SplitVpn(v);
    }
    assert Dir(STALE) == SELF && Index(STALE) == 0;
  }

  lemma FreedLast(refs: seq<Count>, mem: seq<Frame>, dir: FrameNo, s: Space, tlb: Tlb, f: FrameNo)
    requires MemRep(mem, dir, s) && CountRep(refs, s) && Inv(s) && Held(s, f)
    ensures var s' := Release(s, f);
      && MemRep(mem, dir, s') && CountRep(refs, s') && Inv(s')
      && (FrameCoherent(s', dir, tlb) <==> FrameCoherent(s, dir, tlb))
      && (FrameCoherent(s', dir, tlb - {STALE}) <==> FrameCoherent(s, dir, tlb - {STALE}))
      && f < |refs| && refs[f] == 0
  {
    ReleaseKeepsInv(s, f);
    forall d | d in s.table
      ensures s.table[d] != f
    {
      TableIsCounted(s, d);
    }
    TakeBack(mem, dir, s, f);
    forall v
      ensures Translate(Release(s, f), dir, v) == Translate(s, dir, v)
    {
    }
  }

  /**
   Clears the directory slot and frees the table without invalidating anything.  No translation below
   UTOP becomes stale, but the page of the virtual page table that showed the table does, if it is cached.
   */
  method DropTable(m: Machine, pp0: FrameNo, ghost c: Setup, ghost free: seq<FrameNo>, ghost rest: seq<FrameNo>)
    requires Installing(m, c, rest, Moment(free, Some(0), None, None)) && pp0 == c.pp0 && pp0 !in free
    modifies m`head, m`space, m`tlb, m.ref, m.link, m.mem
    ensures Settled(m) && m.space == c.base.(free := [pp0] + free)
    ensures m.Valid() <==> STALE !in m.tlb
  {
    hide MemRep, ListRep, CountRep, Inv, FrameCoherent, Held;
    m.Idle();
    ghost var refs, mem := m.ref[..], m.mem[..];
    ObserveAt(m, c, Moment(free, Some(0), None, None));
    DecodeEncode(TableEntry(pp0));
    assert PTE_ADDR(m.mem[m.dir][0]) == Page2pa(pp0) && m.ref[pp0] == 1;
    ValidIsRep(m);
    InMachine(m, pp0);
    TableDropped(refs, m.link[..], m.head, mem, m.dir, c, free, 0, m.tlb);
    StaleExactly(c, free, m.dir, m.tlb);
    m.mem[m.dir] := m.mem[m.dir][0 := 0];
    m.ref[pp0] := 0;
    m.space := SpaceAt(c, Moment(free, None, None, None));
    assert m.ref[..] == refs[pp0 := 0];
    assert m.mem[..] == mem[m.dir := mem[m.dir][0 := 0]];
    NowHeld(c, free);
    FreedLast(m.ref[..], m.mem[..], m.dir, m.space, m.tlb, pp0);
    LinkIsNull(m.link[..], m.head, m.space, pp0);
    var panicked := m.PageFree(pp0);
    assert !panicked;
  }

  lemma LinkIsNull(links: seq<PagePtr>, head: PagePtr, s: Space, f: FrameNo)
    requires ListRep(links, head, s) && f in s.managed && f !in s.free
    ensures f < |links| && links[f] == None
  {
  }

  lemma NowHeld(c: Setup, free: seq<FrameNo>)
    requires SetupOk(c) && c.pp0 !in free
    ensures Held(During(c, free, None, None, None), c.pp0)
    ensures c.pp0 in During(c, free, None, None, None).managed
    ensures During(c, free, None, None, None).(free := [c.pp0] + free) == c.base.(free := [c.pp0] + free)
  {
    Counts(c, free, None, None, None, c.pp0);
  }

  /**
   The assertions of check_page_installed_pgdir.  It panics exactly when fewer than three pages are free;
   otherwise all hold, nothing stays mapped, and the same pages are free.  The translation buffer then is
   coherent if and only if the processor has not cached the page that showed the test's page table.
   */
  method CheckInstalledPgdir(m: Machine) returns (ok: bool)
    requires m.Valid() && m.loaded && 0 !in m.space.table && 1 !in m.space.table
    modifies m`head, m`space, m`tlb, m.ref, m.link, m.mem
    ensures ok <==> |old(m.space.free)| >= 3
    ensures ok ==>
      && Settled(m) && (m.Valid() <==> STALE !in m.tlb)
      && var q := old(m.space.free);
         m.space == old(m.space).(free := [q[0], q[2], q[1]] + q[3..])
  {
    hide Machine.Valid, Installing, Settled;
    var nfree := CheckAlloc.CountFree(m);
    if nfree < 3 {
      return false;
    }
    ghost var q := m.space.free;
    var pp0, pp1, pp2, c, rest := TakeThree(m);
    ghost var t0 := Moment([pp0] + rest, None, None, None);
    FillPage(m, pp1, BYTES1, c, rest, t0);
    PagesDiffer(m, c, rest, t0);
    FillPage(m, pp2, BYTES2, c, rest, t0);
    MapFirst(m, pp1, pp2, c, rest);
    MapSecond(m, pp1, pp2, c, rest);
    Unmap(m, pp1, pp2, c, rest);
    PagesDiffer(m, c, rest, Moment([pp2, pp1] + rest, Some(0), None, None));
    DropTable(m, pp0, c, [pp2, pp1] + rest, rest);
    assert rest == q[3..];
    assert [pp0] + ([pp2, pp1] + rest) == [q[0], q[2], q[1]] + q[3..];
    return true;
  }

  lemma PagesDiffer(m: Machine, c: Setup, rest: seq<FrameNo>, t: Moment)
    requires Installing(m, c, rest, t)
    ensures c.pp0 != c.pp1 && c.pp0 != c.pp2 && c.pp1 != c.pp2 && c.pp0 !in rest
    ensures c.pp1 < m.mem.Length && c.pp2 < m.mem.Length
  {
    NotATable(m, c, t, c.pp1);
    NotATable(m, c, t, c.pp2);
  }
}
