/**
 The kernel's self test of page insertion and removal, run on any valid state with three free pages
 and with directory slots 0 and 1 empty.  Every assertion of the test holds, and the free pages at the
 end are those at the start.
 */
module CheckPage {
  import opened Base
  import opened Mmu
  import opened AddressSpace
  import opened SpaceLaws
  import opened Representation
  import opened PageManager
  import opened Runs
  import opened FreeListOrder

  /** The space before the test maps anything, and the three pages it works with. */
  datatype Setup = Setup(base: Space, pp0: FrameNo, pp1: FrameNo, pp2: FrameNo)

  /** The rest of the free list, which the test puts aside, and its head. */
  datatype Stolen = Stolen(fl: PagePtr, pages: seq<FrameNo>)

  /** Where the test is: the free list, the slot (0 or 1) that pp0 is table of, and pages 0 and 1. */
  datatype Moment = Moment(free: seq<FrameNo>, slot: Option<int>, e0: Option<Pte>, e1: Option<Pte>)

  ghost predicate SetupOk(c: Setup) {
    && Inv(c.base) && c.base.free == []
    && c.pp0 != c.pp1 && c.pp0 != c.pp2 && c.pp1 != c.pp2
    && c.pp0 in c.base.managed && c.pp1 in c.base.managed && c.pp2 in c.base.managed
    && RefCount(c.base, c.pp0) == 0 && RefCount(c.base, c.pp1) == 0 && RefCount(c.base, c.pp2) == 0
    && 0 !in c.base.table && 1 !in c.base.table
  }

  function WithPage(m: map<int, Pte>, v: int, e: Option<Pte>): map<int, Pte> {
    if e.Some? then m[v := e.value] else m
  }

  /** The space during the test: pp0 may be the table of a slot, pages 0 and 1 may be mapped. */
  function During(c: Setup, free: seq<FrameNo>, slot: Option<int>, e0: Option<Pte>, e1: Option<Pte>): Space {
    Space(c.base.managed, free,
      if slot.Some? then c.base.table[slot.value := c.pp0] else c.base.table,
      WithPage(WithPage(c.base.pte, 0, e0), 1, e1))
  }

  function Hit(e: Option<Pte>, f: FrameNo): nat {
    if e.Some? && e.value.frame == f then 1 else 0
  }

  /** Reference counts during the test. */
  lemma Counts(c: Setup, free: seq<FrameNo>, slot: Option<int>, e0: Option<Pte>, e1: Option<Pte>, f: FrameNo)
    requires SetupOk(c) && (slot.Some? ==> slot.value in {0, 1})
    ensures RefCount(During(c, free, slot, e0, e1), f)
         == RefCount(c.base, f) + Hit(e0, f) + Hit(e1, f) + (if slot.Some? && f == c.pp0 then 1 else 0)
  {
    var s := c.base;
    assert 0 !in s.pte && 1 !in s.pte by {
      assert Dir(0) == 0 && Dir(1) == 0;
    }
    if e0.Some? {
      CountPut(s, 0, e0.value, f);
      s := s.(pte := s.pte[0 := e0.value]);
    }
    if e1.Some? {
      CountPut(s, 1, e1.value, f);
      s := s.(pte := s.pte[1 := e1.value]);
    }
    if slot.Some? {
      CountTable(s, slot.value, c.pp0, f);
    }
  }

  /** After the walk has found a table: what an insert does to the space. */
  function Replaced(free: seq<FrameNo>, was: Option<Pte>, other: Option<Pte>, p: Pte): seq<FrameNo> {
    if was.Some? && was.value.frame != p.frame && Hit(other, was.value.frame) == 0
    then [was.value.frame] + free else free
  }

  lemma InsertDuring(c: Setup, free: seq<FrameNo>, e0: Option<Pte>, e1: Option<Pte>, v: int, f: FrameNo, perm: Flags)
    requires SetupOk(c) && v in {0, 1} && f in {c.pp1, c.pp2}
    requires e0.Some? ==> e0.value.frame in {c.pp1, c.pp2}
    requires e1.Some? ==> e1.value.frame in {c.pp1, c.pp2}
    ensures var s, p := During(c, free, Some(0), e0, e1), Pte(f, WithPresent(perm));
      Insert(s, f, v, perm) ==
        if v == 0 then During(c, Replaced(free, e0, e1, p), Some(0), Some(p), e1)
        else During(c, Replaced(free, e1, e0, p), Some(0), e0, Some(p))
  {
    var s, p := During(c, free, Some(0), e0, e1), Pte(f, WithPresent(perm));
    var t := if v == 0 then During(c, free, Some(0), Some(p), e1) else During(c, free, Some(0), e0, Some(p));
    assert HasTable(s, v);
    assert t == s.(pte := s.pte[v := p]);
    NoBasePages(c);
    var o := if v == 0 then e0 else e1;
    if o.Some? {
      assert s.pte[v] == o.value;
      if v == 0 {
        Counts(c, free, Some(0), Some(p), e1, o.value.frame);
      } else {
        Counts(c, free, Some(0), e0, Some(p), o.value.frame);
      }
    }
  }

  lemma NoBasePages(c: Setup)
    requires SetupOk(c)
    ensures forall v :: v in c.base.pte ==> Dir(v) != 0 && Dir(v) != 1
    ensures 0 !in c.base.pte && 1 !in c.base.pte && 1024 !in c.base.pte && 1025 !in c.base.pte
  {
    assert Dir(0) == 0 && Dir(1) == 0 && Dir(1024) == 1 && Dir(1025) == 1;
  }

  lemma RemoveDuring(c: Setup, free: seq<FrameNo>, e0: Option<Pte>, e1: Option<Pte>, v: int)
    requires SetupOk(c) && v in {0, 1}
    requires e0.Some? ==> e0.value.frame in {c.pp1, c.pp2}
    requires e1.Some? ==> e1.value.frame in {c.pp1, c.pp2}
    requires if v == 0 then e0.Some? else e1.Some?
    ensures var s := During(c, free, Some(0), e0, e1);
      Remove(s, v) ==
        if v == 0
        then During(c, if Hit(e1, e0.value.frame) == 0 then [e0.value.frame] + free else free, Some(0), None, e1)
        else During(c, if Hit(e0, e1.value.frame) == 0 then [e1.value.frame] + free else free, Some(0), e0, None)
  {
    var s := During(c, free, Some(0), e0, e1);
    NoBasePages(c);
    if v == 0 {
      assert s.pte - {0} == During(c, free, Some(0), None, e1).pte;
      Counts(c, free, Some(0), None, e1, e0.value.frame);
    } else {
      assert s.pte - {1} == During(c, free, Some(0), e0, None).pte;
      Counts(c, free, Some(0), e0, None, e1.value.frame);
    }
  }

  // -------------------------------------------------- the machine during the test

  ghost predicate StolenOk(refs: seq<Count>, links: seq<PagePtr>, c: Setup, st: Stolen, dir: FrameNo) {
    && ListIs(links, st.fl, st.pages) && NoDup(st.pages)
    && forall f :: f in st.pages ==> f < |refs| && f < |links| && f !in c.base.managed && f != dir && refs[f] == 0
  }

  ghost predicate MomentOk(c: Setup, t: Moment) {
    && SetupOk(c)
    && (t.slot.Some? ==> t.slot.value in {0, 1})
    && (t.e0.Some? ==> t.e0.value.frame in {c.pp1, c.pp2} && t.slot == Some(0))
    && (t.e1.Some? ==> t.e1.value.frame in {c.pp1, c.pp2} && t.slot == Some(0))
  }

  function SpaceAt(c: Setup, t: Moment): Space {
    During(c, t.free, t.slot, t.e0, t.e1)
  }

  function CountAt(c: Setup, t: Moment, f: FrameNo): nat {
    Hit(t.e0, f) + Hit(t.e1, f) + (if t.slot.Some? && f == c.pp0 then 1 else 0)
  }

  ghost predicate InTest(m: Machine, c: Setup, st: Stolen, t: Moment)
    reads m, m.ref, m.link, m.mem
  {
    && m.Valid() && !m.loaded && MomentOk(c, t) && m.space == SpaceAt(c, t)
    && StolenOk(m.ref[..], m.link[..], c, st, m.dir)
  }

  /** Unmanaged records do not change, so the stolen list stays intact. */
  lemma StolenStays(refs: seq<Count>, links: seq<PagePtr>, refs': seq<Count>, links': seq<PagePtr>,
      c: Setup, st: Stolen, dir: FrameNo)
    requires StolenOk(refs, links, c, st, dir) && |refs'| == |refs| && |links'| == |links|
    requires forall f: FrameNo :: f < |refs| && f !in c.base.managed ==> refs'[f] == refs[f]
    requires forall f: FrameNo :: f < |links| && f !in c.base.managed ==> links'[f] == links[f]
    ensures StolenOk(refs', links', c, st, dir)
  {
    assert forall i :: 0 <= i < |st.pages| ==> st.pages[i] in st.pages;
  }

  lemma StolenKept(a: Snapshot, b: Snapshot, s: Space, c: Setup, st: Stolen, dir: FrameNo)
    requires StolenOk(a.refs, a.links, c, st, dir) && Kept(a, b, s, dir) && s.managed == c.base.managed
    ensures StolenOk(b.refs, b.links, c, st, dir)
  {
    StolenStays(a.refs, a.links, b.refs, b.links, c, st, dir);
  }

  ghost predicate Seen(m: Machine, c: Setup, t: Moment, f: FrameNo)
    reads m, m.ref, m.link
  {
    f < m.ref.Length == m.link.Length && m.ref[f] == CountAt(c, t, f) && (f !in t.free ==> m.link[f] == None)
  }

  /** What the test's own assertions read: counters, the NULL links of pages in use, translations. */
  lemma Observe(m: Machine, c: Setup, st: Stolen, t: Moment)
    requires InTest(m, c, st, t)
    ensures m.Valid()
    ensures Seen(m, c, t, c.pp0) && Seen(m, c, t, c.pp1) && Seen(m, c, t, c.pp2)
    ensures m.dir < m.mem.Length && c.pp0 < m.mem.Length
    ensures Translate(m.space, m.dir, 0) == t.e0 && Translate(m.space, m.dir, 1) == t.e1
    ensures t.slot.Some? ==> m.mem[m.dir][t.slot.value] == Encode(TableEntry(c.pp0))
    ensures t.slot == Some(0) && t.e0.Some? ==> m.mem[c.pp0][0] == Encode(t.e0.value)
    ensures t.slot == Some(0) && t.e1.Some? ==> m.mem[c.pp0][1] == Encode(t.e1.value)
  {
    ObserveAt(m, c, t);
  }

  lemma ObserveAt(m: Machine, c: Setup, t: Moment)
    requires m.Valid() && MomentOk(c, t) && m.space == SpaceAt(c, t)
    ensures Seen(m, c, t, c.pp0) && Seen(m, c, t, c.pp1) && Seen(m, c, t, c.pp2)
    ensures m.dir < m.mem.Length && c.pp0 < m.mem.Length
    ensures Translate(m.space, m.dir, 0) == t.e0 && Translate(m.space, m.dir, 1) == t.e1
    ensures t.slot.Some? ==> m.mem[m.dir][t.slot.value] == Encode(TableEntry(c.pp0))
    ensures t.slot == Some(0) && t.e0.Some? ==> m.mem[c.pp0][0] == Encode(t.e0.value)
    ensures t.slot == Some(0) && t.e1.Some? ==> m.mem[c.pp0][1] == Encode(t.e1.value)
  {
    forall f | f in {c.pp0, c.pp1, c.pp2}
      ensures Seen(m, c, t, f)
    {
      Counts(c, t.free, t.slot, t.e0, t.e1, f);
      assert m.ref[..][f] == RefCount(m.space, f);
    }
    NoBasePages(c);
    assert Dir(0) == 0 && Dir(1) == 0 && Index(0) == 0 && Index(1) == 1;
    if t.slot.Some? {
      assert m.mem[..][m.dir][t.slot.value] == DirWord(m.space, m.dir, t.slot.value);
    }
    if t.slot == Some(0) {
      assert EntryMatches(m.mem[..], m.space, 0) && EntryMatches(m.mem[..], m.space, 1);
    }
  }

  // -------------------------------------------------- steps of the test

  method TestAlloc(m: Machine, zero: bool, ghost c: Setup, ghost st: Stolen, ghost t: Moment) returns (r: PagePtr)
    requires InTest(m, c, st, t)
    modifies m`head, m`space, m.ref, m.link, m.mem
    ensures r == Next(t.free, 0)
    ensures InTest(m, c, st, if t.free == [] then t else t.(free := t.free[1..]))
    ensures r.Some? ==> r.value < m.mem.Length && (zero ==> m.mem[r.value] == ZEROS)
  {
    hide MemRep, ListRep, CountRep, Inv, FrameCoherent, StolenOk, SetupOk;
    ghost var refs, links := m.ref[..], m.link[..];
    FreeAreManaged(m);
    assert t.free != [] ==> t.free[0] in t.free;
    r := m.PageAlloc(zero);
    StolenStays(refs, links, m.ref[..], m.link[..], c, st, m.dir);
  }

  method TestFree(m: Machine, pp: FrameNo, ghost c: Setup, ghost st: Stolen, ghost t: Moment)
    requires InTest(m, c, st, t) && pp in {c.pp0, c.pp1, c.pp2} && pp !in t.free && CountAt(c, t, pp) == 0
    modifies m`head, m`space, m.ref, m.link
    ensures InTest(m, c, st, t.(free := [pp] + t.free))
  {
    ghost var refs, links := m.ref[..], m.link[..];
    Counts(c, t.free, t.slot, t.e0, t.e1, pp);
    FreeHeld(m, pp);
    StolenStays(refs, links, m.ref[..], m.link[..], c, st, m.dir);
  }

  /** An insert at page 0 or 1 whose table exists succeeds; the displaced page may become free. */
  method TestInsert(m: Machine, f: FrameNo, va: Word, perm: Flags, ghost c: Setup, ghost st: Stolen, ghost t: Moment)
    returns (r: int)
    requires InTest(m, c, st, t) && t.slot == Some(0) && va in {0, PGSIZE}
    requires f in {c.pp1, c.pp2} && f !in t.free
    modifies m`head, m`space, m`tlb, m.ref, m.link, m.mem
    ensures r == 0
    ensures var p := Pte(f, WithPresent(perm));
      InTest(m, c, st,
        if va == 0 then t.(free := Replaced(t.free, t.e0, t.e1, p), e0 := Some(p))
        else t.(free := Replaced(t.free, t.e1, t.e0, p), e1 := Some(p)))
  {
    hide MemRep, ListRep, CountRep, Inv, FrameCoherent, Kept, StolenOk, IsTable, Translate;
    ghost var before := m.Snap();
    InsertDuring(c, t.free, t.e0, t.e1, PGNUM(va), f, perm);
    Counts(c, t.free, t.slot, t.e0, t.e1, f);
    Observe(m, c, st, t);
    r := m.PageInsert(f, va, perm);
    StolenKept(before, m.Snap(), m.space, c, st, m.dir);
  }

  method TestRemove(m: Machine, va: Word, ghost c: Setup, ghost st: Stolen, ghost t: Moment)
    requires InTest(m, c, st, t) && t.slot == Some(0) && va in {0, PGSIZE}
    requires if va == 0 then t.e0.Some? else t.e1.Some?
    modifies m`head, m`space, m`tlb, m.ref, m.link, m.mem
    ensures InTest(m, c, st,
      if va == 0
      then t.(free := if Hit(t.e1, t.e0.value.frame) == 0 then [t.e0.value.frame] + t.free else t.free, e0 := None)
      else t.(free := if Hit(t.e0, t.e1.value.frame) == 0 then [t.e1.value.frame] + t.free else t.free, e1 := None))
  {
    hide MemRep, ListRep, CountRep, Inv, FrameCoherent, Kept, StolenOk, IsTable, Translate;
    ghost var before := m.Snap();
    RemoveDuring(c, t.free, t.e0, t.e1, PGNUM(va));
    m.PageRemove(va);
    StolenKept(before, m.Snap(), m.space, c, st, m.dir);
  }

  lemma TableDropped(refs: seq<Count>, links: seq<PagePtr>, head: PagePtr, mem: seq<Frame>, dir: FrameNo,
      c: Setup, free: seq<FrameNo>, d: int, tlb: Tlb)
    requires SetupOk(c) && d in {0, 1} && c.pp0 !in free
    requires Rep(links, head, mem, dir, During(c, free, Some(d), None, None), tlb)
    requires CountRep(refs, During(c, free, Some(d), None, None))
    ensures dir < |mem| && Rep(links, head, mem[dir := mem[dir][d := 0]], dir, During(c, free, None, None, None), map[])
    ensures c.pp0 < |refs| && CountRep(refs[c.pp0 := 0], During(c, free, None, None, None))
  {
    hide ListRep, MemRep, CountRep, Inv, SetupOk;
    var s, s' := During(c, free, Some(d), None, None), During(c, free, None, None, None);
    DroppedCounts(refs, c, free, d);
    DroppedMem(mem, dir, c, free, d);
    ListIgnoresTables(links, head, s, s');
  }

  lemma DroppedCounts(refs: seq<Count>, c: Setup, free: seq<FrameNo>, d: int)
    requires SetupOk(c) && d in {0, 1} && c.pp0 !in free && Inv(During(c, free, Some(d), None, None))
    requires CountRep(refs, During(c, free, Some(d), None, None))
    ensures c.pp0 < |refs| && CountRep(refs[c.pp0 := 0], During(c, free, None, None, None))
    ensures Inv(During(c, free, None, None, None))
  {
    var s, s' := During(c, free, Some(d), None, None), During(c, free, None, None, None);
    forall f
      ensures RefCount(s, f) == RefCount(s', f) + (if f == c.pp0 then 1 else 0) && (f == c.pp0 ==> RefCount(s', f) == 0)
    {
      Counts(c, free, Some(d), None, None, f);
      Counts(c, free, None, None, None, f);
    }
    DroppedTables(c, free, d);
    assert Inv(s');
  }

  lemma DroppedTables(c: Setup, free: seq<FrameNo>, d: int)
    requires SetupOk(c) && d in {0, 1} && Inv(During(c, free, Some(d), None, None))
    ensures TablesOk(During(c, free, None, None, None)) && EntriesOk(During(c, free, None, None, None))
  {
    var s, s' := During(c, free, Some(d), None, None), During(c, free, None, None, None);
    assert forall e :: e in s'.table ==> e in s.table && s'.table[e] == s.table[e];
  }

  lemma DroppedMem(mem: seq<Frame>, dir: FrameNo, c: Setup, free: seq<FrameNo>, d: int)
    requires SetupOk(c) && d in {0, 1} && Inv(During(c, free, Some(d), None, None))
    requires MemRep(mem, dir, During(c, free, Some(d), None, None))
    ensures dir < |mem| && MemRep(mem[dir := mem[dir][d := 0]], dir, During(c, free, None, None, None))
  {
    var s, s' := During(c, free, Some(d), None, None), During(c, free, None, None, None);
    DroppedTables(c, free, d);
    forall v | IsVpn(v) && Dir(v) in s'.table
      ensures EntryMatches(mem[dir := mem[dir][d := 0]], s', v)
    {
      assert EntryMatches(mem, s, v);
    }
  }

  /**
   The test takes its page table back by hand.  It runs before this directory is loaded, so the
   buffer is empty.
   */
  method TestDropTable(m: Machine, pp0: FrameNo, d: int, ghost c: Setup, ghost st: Stolen, ghost t: Moment)
    requires InTest(m, c, st, t) && t.slot == Some(d) && t.e0 == None && t.e1 == None
    requires pp0 == c.pp0 && pp0 !in t.free
    modifies m`space, m.ref, m.mem
    ensures InTest(m, c, st, t.(slot := None))
  {
    hide Rep, MemRep, ListRep, CountRep, Inv, FrameCoherent;
    ghost var refs, mem := m.ref[..], m.mem[..];
    ValidIsRep(m);
    InMachine(m, pp0);
    TableDropped(refs, m.link[..], m.head, mem, m.dir, c, t.free, d, m.tlb);
    m.mem[m.dir] := m.mem[m.dir][d := 0];
    m.ref[pp0] := 0;
    m.space := SpaceAt(c, t.(slot := None));
    assert m.ref[..] == refs[pp0 := 0];
    assert m.mem[..] == mem[m.dir := mem[m.dir][d := 0]];
    StolenStays(refs, m.link[..], m.ref[..], m.link[..], c, st, m.dir);
    RepIsValid(m);
  }

  lemma ValidIsRep(m: Machine)
    requires m.Valid()
    ensures m.Shape() && m.dir < m.npages && (m.loaded || m.tlb == map[])
    ensures Rep(m.link[..], m.head, m.mem[..], m.dir, m.space, m.tlb) && CountRep(m.ref[..], m.space)
  {
  }

  lemma InMachine(m: Machine, f: FrameNo)
    requires m.Valid() && f in m.space.managed
    ensures f < m.npages && f != m.dir
  {
  }

  /** A walk with `create` makes the one free page the table of the missing slot. */
  method TestWalk(m: Machine, va: Word, ghost c: Setup, ghost st: Stolen, ghost t: Moment) returns (r: Option<PteRef>)
    requires InTest(m, c, st, t) && t == Moment([c.pp0], None, None, None) && PDX(va) in {0, 1}
    modifies m`head, m`space, m`tlb, m.ref, m.link, m.mem
    ensures r == Some(PteRef(c.pp0, PTX(va)))
    ensures InTest(m, c, st, Moment([], Some(PDX(va)), None, None))
  {
    hide MemRep, ListRep, CountRep, Inv, FrameCoherent, Kept, StolenOk, IsTable, Translate;
    ghost var before := m.Snap();
    SplitPageNumber(va);
    assert [c.pp0][1..] == [];
    r := m.PgdirWalk(va, true);
    StolenKept(before, m.Snap(), m.space, c, st, m.dir);
  }

  /** Fills a page the test holds. */
  method TestFill(m: Machine, pp: FrameNo, w: Word, ghost c: Setup, ghost st: Stolen, ghost t: Moment)
    requires InTest(m, c, st, t) && pp in {c.pp0, c.pp1, c.pp2} && CountAt(c, t, pp) == 0
    modifies m.mem
    ensures InTest(m, c, st, t) && m.mem[pp] == seq(1024, _ => w)
  {
    hide Rep, ListRep, CountRep, Inv, FrameCoherent;
    ghost var mem := m.mem[..];
    InMachine(m, pp);
    Counts(c, t.free, t.slot, t.e0, t.e1, pp);
    forall d | d in m.space.table
      ensures m.space.table[d] != pp
    {
      TableIsCounted(m.space, d);
    }
    WriteOther(mem, m.dir, m.space, pp, seq(1024, _ => w));
    m.mem[pp] := seq(1024, _ => w);
    assert m.mem[..] == mem[pp := m.mem[pp]];
  }

  lemma Distinct(m: Machine, c: Setup, st: Stolen, t: Moment)
    requires InTest(m, c, st, t)
    ensures c.pp0 != c.pp1 && c.pp0 != c.pp2 && c.pp1 != c.pp2
  {
  }

  method TestLookup(m: Machine, va: Word, ghost c: Setup, ghost st: Stolen, ghost t: Moment) returns (r: PagePtr)
    requires InTest(m, c, st, t) && va == 0
    ensures r == if t.e0.Some? then Some(t.e0.value.frame) else None
  {
    Observe(m, c, st, t);
    r := m.PageLookup(va);
  }

  method TestVa2pa(m: Machine, va: Word, ghost c: Setup, ghost st: Stolen, ghost t: Moment) returns (pa: Word)
    requires InTest(m, c, st, t) && va in {0, PGSIZE}
    ensures var e := if va == 0 then t.e0 else t.e1;
      pa == if e.Some? then Page2pa(e.value.frame) else UNMAPPED
  {
    hide Machine.Valid, Translate;
    Observe(m, c, st, t);
    pa := m.CheckVa2pa(va);
  }

  method TestFind(m: Machine, va: Word, ghost c: Setup, ghost st: Stolen, ghost t: Moment) returns (r: Option<PteRef>)
    requires InTest(m, c, st, t) && va in {0, PGSIZE} && t.slot == Some(0)
    ensures r == Some(PteRef(c.pp0, va / 4096))
  {
    hide MemRep, ListRep, CountRep, Inv, FrameCoherent, Kept, StolenOk, SetupOk, IsTable;
    r := m.PgdirWalk(va, false);
  }

  method TestInsertFails(m: Machine, f: FrameNo, va: Word, perm: Flags, ghost c: Setup, ghost st: Stolen, ghost t: Moment)
    returns (r: int)
    requires InTest(m, c, st, t) && t.free == [] && f in {c.pp0, c.pp1}
    requires (va == 0 && t.slot == None) || (va == PTSIZE && t.slot == Some(0))
    modifies m`head, m`space, m`tlb, m.ref, m.link, m.mem
    ensures r < 0 && InTest(m, c, st, t)
  {
    hide MemRep, ListRep, CountRep, Inv, FrameCoherent, Kept, StolenOk, IsTable, Translate;
    ghost var before := m.Snap();
    assert Dir(PGNUM(va)) == va / 0x40_0000;
    assert NoRoom(m.space, PGNUM(va));
    r := m.PageInsert(f, va, perm);
    StolenKept(before, m.Snap(), m.space, c, st, m.dir);
  }

  lemma InsertNewDuring(c: Setup, perm: Flags)
    requires SetupOk(c)
    ensures Insert(During(c, [c.pp0], None, None, None), c.pp1, 0, perm)
         == During(c, [], Some(0), Some(Pte(c.pp1, WithPresent(perm))), None)
  {
    NoBasePages(c);
    var s := During(c, [c.pp0], None, None, None);
    assert !HasTable(s, 0) && [c.pp0][1..] == [];
  }

  /** The first insert: the free page becomes the table of slot 0. */
  method TestInsertNew(m: Machine, f: FrameNo, ghost c: Setup, ghost st: Stolen) returns (r: int)
    requires InTest(m, c, st, Moment([c.pp0], None, None, None)) && f == c.pp1
    modifies m`head, m`space, m`tlb, m.ref, m.link, m.mem
    ensures r == 0 && InTest(m, c, st, Moment([], Some(0), Some(Pte(c.pp1, WithPresent(PTE_W))), None))
  {
    hide MemRep, ListRep, CountRep, Inv, FrameCoherent, Kept, StolenOk, IsTable, Translate;
    ghost var before := m.Snap();
    InsertNewDuring(c, PTE_W);
    Observe(m, c, st, Moment([c.pp0], None, None, None));
    r := m.PageInsert(f, 0, PTE_W);
    StolenKept(before, m.Snap(), m.space, c, st, m.dir);
  }

  lemma NoEntries(m: Machine, c: Setup, st: Stolen)
    requires InTest(m, c, st, Moment([], Some(0), None, None))
    ensures c.pp0 < m.mem.Length && forall i :: 0 <= i < NPTENTRIES ==> m.mem[c.pp0][i] == 0
  {
    NoBasePages(c);
    forall i | 0 <= i < NPTENTRIES
      ensures m.mem[c.pp0][i] == 0
    {
      assert Dir(i) == 0 && Index(i) == i;
      assert EntryMatches(m.mem[..], m.space, i);
    }
  }

  // -------------------------------------------------- putting the free list aside, and back

  /** A space whose free pages are taken out of the allocator's hands altogether. */
  function Aside(s: Space): Space {
    s.(free := [], managed := s.managed - (set f | f in s.free))
  }

  lemma AsideRep(refs: seq<Count>, links: seq<PagePtr>, head: PagePtr, mem: seq<Frame>, dir: FrameNo, s: Space, tlb: Tlb)
    requires Rep(links, head, mem, dir, s, tlb) && CountRep(refs, s)
    ensures Rep(links, None, mem, dir, Aside(s), tlb) && CountRep(refs, Aside(s))
    ensures forall f :: RefCount(Aside(s), f) == RefCount(s, f)
  {
    hide MemRep, FrameCoherent;
    var s' := Aside(s);
    AsideInv(s);
    InMemory(mem, dir, s);
    SameMapsMem(mem, dir, s, s');
    SameMapsCoherent(s, s', dir, tlb);
    SameMapsCount(s, s');
  }

  lemma AsideInv(s: Space)
    requires Inv(s)
    ensures Inv(Aside(s)) && TablesOk(Aside(s)) && EntriesOk(Aside(s))
  {
    forall v | v in s.pte && v < NUSER
      ensures s.pte[v].frame in Aside(s).managed
    {
      NamedIsCounted(s, v);
    }
    SameMapsCount(s, Aside(s));
  }

  lemma BackRep(refs: seq<Count>, links: seq<PagePtr>, mem: seq<Frame>, dir: FrameNo,
      s: Space, fl: PagePtr, pages: seq<FrameNo>, tlb: Tlb)
    requires Rep(links, None, mem, dir, s, tlb) && CountRep(refs, s) && s.free == []
    requires ListIs(links, fl, pages) && NoDup(pages)
    requires forall f :: f in pages ==> f < |refs| && f < |links| && f < |mem| && f !in s.managed && f != dir && refs[f] == 0
    ensures var s' := s.(free := pages, managed := s.managed + (set f | f in pages));
      Rep(links, fl, mem, dir, s', tlb) && CountRep(refs, s')
  {
    hide MemRep, FrameCoherent;
    var s' := s.(free := pages, managed := s.managed + (set f | f in pages));
    BackInv(s, pages);
    InMemory(mem, dir, s);
    SameMapsMem(mem, dir, s, s');
    SameMapsCoherent(s, s', dir, tlb);
  }

  lemma BackInv(s: Space, pages: seq<FrameNo>)
    requires Inv(s) && NoDup(pages) && s.free == [] && forall f :: f in pages ==> f !in s.managed
    ensures var s' := s.(free := pages, managed := s.managed + (set f | f in pages));
      Inv(s') && TablesOk(s') && EntriesOk(s') && forall f :: RefCount(s', f) == RefCount(s, f)
    ensures forall f :: f in pages ==> RefCount(s, f) == 0
  {
    SameMapsCount(s, s.(free := pages, managed := s.managed + (set f | f in pages)));
    forall f | f in pages
      ensures RefCount(s, f) == 0
    {
      assert Mappers(s.pte, f) == {};
      assert forall d :: d in s.table ==> s.table[d] != f;
      assert Slots(s.table, f) == {};
    }
  }

  /** Allocates the three pages and puts the rest of the list aside. */
  method TestBegin(m: Machine) returns (pp0: PagePtr, pp1: PagePtr, pp2: PagePtr, fl: PagePtr,
      ghost c: Setup, ghost st: Stolen)
    requires m.Valid() && !m.loaded && |m.space.free| >= 3 && 0 !in m.space.table && 1 !in m.space.table
    modifies m`head, m`space, m.ref, m.link, m.mem
    ensures pp0 == Some(c.pp0) && pp1 == Some(c.pp1) && pp2 == Some(c.pp2) && fl == st.fl
    ensures [c.pp0, c.pp1, c.pp2] + st.pages == old(m.space.free)
    ensures c.base == Aside(old(m.space).(free := st.pages))
    ensures InTest(m, c, st, Moment([], None, None, None))
  {
    hide Machine.Valid, Aside, SetupOk, StolenOk, Rep, CountRep;
    ghost var s := m.space;
    FreeAreManaged(m);
    pp0 := m.PageAlloc(false);
    pp1 := m.PageAlloc(false);
    pp2 := m.PageAlloc(false);
    fl := m.head;
    ghost var s3 := m.space;
    BeginSetup(m, s, s3);
    m.head := None;
    m.space := Aside(s3);
    c := Setup(m.space, s.free[0], s.free[1], s.free[2]);
    st := Stolen(fl, s3.free);
    RepIsValid(m);
  }

  lemma BeginSetup(m: Machine, s: Space, s3: Space)
    requires m.Valid() && m.space == s3 && Inv(s) && |s.free| >= 3 && 0 !in s.table && 1 !in s.table
    requires s3 == Alloc(Alloc(Alloc(s)))
    ensures s3 == s.(free := s.free[3..]) && [s.free[0], s.free[1], s.free[2]] + s3.free == s.free
    ensures Rep(m.link[..], None, m.mem[..], m.dir, Aside(s3), m.tlb) && CountRep(m.ref[..], Aside(s3))
    ensures m.Shape() && m.dir < m.npages && (m.loaded || m.tlb == map[])
    ensures var c := Setup(Aside(s3), s.free[0], s.free[1], s.free[2]);
      SetupOk(c) && StolenOk(m.ref[..], m.link[..], c, Stolen(m.head, s3.free), m.dir)
  {
    assert s3.free == s.free[3..];
    AsideRep(m.ref[..], m.link[..], m.head, m.mem[..], m.dir, s3, m.tlb);
    assert s.free[0] in s.free && s.free[1] in s.free && s.free[2] in s.free;
    forall i | 0 <= i < 3
      ensures s.free[i] !in s3.free && RefCount(Aside(s3), s.free[i]) == 0
    {
      assert RefCount(s, s.free[i]) == 0;
    }
    forall f | f in s3.free
      ensures f < m.npages && m.ref[f] == 0 && f != m.dir
    {
      assert m.ref[..][f] == RefCount(s3, f);
    }
  }

  /** Gives the list back and frees the three pages. */
  method TestEnd(m: Machine, pp0: FrameNo, pp1: FrameNo, pp2: FrameNo, fl: PagePtr, ghost c: Setup, ghost st: Stolen)
    requires InTest(m, c, st, Moment([], None, None, None))
    requires pp0 == c.pp0 && pp1 == c.pp1 && pp2 == c.pp2 && fl == st.fl
    modifies m`head, m`space, m.ref, m.link
    ensures m.Valid()
    ensures m.space == c.base.(
      free := [pp2, pp1, pp0] + st.pages,
      managed := c.base.managed + (set f | f in st.pages))
  {
    hide InTest, Machine.Valid, Rep, CountRep, Held;
    EndSetup(m, c, st);
    m.head := fl;
    m.space := m.space.(free := st.pages, managed := m.space.managed + (set f | f in st.pages));
    RepIsValid(m);
    ghost var s := m.space;
    OtherStaysHeld(s, pp0, pp1);
    OtherStaysHeld(s, pp0, pp2);
    OtherStaysHeld(Release(s, pp0), pp1, pp2);
    FreeHeld(m, pp0);
    FreeHeld(m, pp1);
    FreeHeld(m, pp2);
    assert m.space.free == [pp2, pp1, pp0] + st.pages;
  }

  lemma OtherStaysHeld(s: Space, f: FrameNo, g: FrameNo)
    requires Held(s, g) && f != g
    ensures Held(Release(s, f), g)
  {
  }

  lemma EndSetup(m: Machine, c: Setup, st: Stolen)
    requires InTest(m, c, st, Moment([], None, None, None))
    ensures m.Shape() && m.dir < m.npages && m.space == c.base && (m.loaded || m.tlb == map[])
    ensures var s' := m.space.(free := st.pages, managed := m.space.managed + (set f | f in st.pages));
      && Rep(m.link[..], st.fl, m.mem[..], m.dir, s', m.tlb) && CountRep(m.ref[..], s')
      && c.pp0 != c.pp1 && c.pp0 != c.pp2 && c.pp1 != c.pp2
      && Held(s', c.pp0) && Held(s', c.pp1) && Held(s', c.pp2)
  {
    BackRep(m.ref[..], m.link[..], m.mem[..], m.dir, m.space, st.fl, st.pages, m.tlb);
  }

  // -------------------------------------------------- the test

  /** PTE_W, PTE_W | PTE_U and no permission, as they end up in an entry. */
  const RW: Flags := PTE_W + PTE_P
  const RWU: Flags := PTE_U + PTE_W + PTE_P
  const RO: Flags := PTE_P

  /**
   The assertions of check_page, in order.  At the end the same pages are free, with the three that
   were used at the head of the list.
   */
  method CheckPage(m: Machine)
    requires m.Valid() && !m.loaded && |m.space.free| >= 3 && 0 !in m.space.table && 1 !in m.space.table
    modifies m`head, m`space, m`tlb, m.ref, m.link, m.mem
    ensures m.Valid()
    ensures m.space.table == old(m.space.table) && m.space.pte == old(m.space.pte)
    ensures m.space.managed == old(m.space.managed)
    ensures m.space.free == [old(m.space.free[2]), old(m.space.free[1]), old(m.space.free[0])] + old(m.space.free[3..])
  {
    hide InTest, Machine.Valid, Aside;
    ghost var s := m.space;
    FreeAreManaged(m);
    var p0, p1, p2, fl, c, st := TestBegin(m);
    var pp0, pp1, pp2 := p0.value, p1.value, p2.value;
    MapAndRemap(m, pp0, pp1, pp2, c, st);
    ReplaceAndRemove(m, pp0, pp1, pp2, c, st);
    TablePages(m, pp0, pp1, pp2, c, st);
    TestEnd(m, pp0, pp1, pp2, fl, c, st);
    BackAgain(s, c, st);
  }

  lemma FreeAreManaged(m: Machine)
    requires m.Valid()
    ensures Inv(m.space) && forall f :: f in m.space.free ==> f in m.space.managed
  {
  }

  lemma BackAgain(s: Space, c: Setup, st: Stolen)
    requires c.base == Aside(s.(free := st.pages)) && [c.pp0, c.pp1, c.pp2] + st.pages == s.free
    requires forall f :: f in s.free ==> f in s.managed
    ensures s.free[0] == c.pp0 && s.free[1] == c.pp1 && s.free[2] == c.pp2 && s.free[3..] == st.pages
    ensures c.base.managed + (set f | f in st.pages) == s.managed
    ensures c.base.table == s.table && c.base.pte == s.pte
  {
    assert forall f :: f in st.pages ==> f in s.free;
  }

  /** Lists of at most one page. */
  lemma OnePage(pp0: FrameNo, pp1: FrameNo, pp2: FrameNo)
    ensures [pp0] + [] == [pp0] && [pp1] + [] == [pp1] && [pp2] + [] == [pp2]
    ensures [pp0][1..] == [] && [pp1][1..] == [] && [pp2][1..] == []
  {
  }

  /** The first half of the assertions: failing and succeeding inserts, re-inserts with other permissions. */
  method MapAndRemap(m: Machine, pp0: FrameNo, pp1: FrameNo, pp2: FrameNo, ghost c: Setup, ghost st: Stolen)
    requires InTest(m, c, st, Moment([], None, None, None)) && c == Setup(c.base, pp0, pp1, pp2)
    modifies m`head, m`space, m`tlb, m.ref, m.link, m.mem
    ensures InTest(m, c, st, Moment([], Some(0), Some(Pte(pp1, RW)), Some(Pte(pp2, RW))))
  {
    hide InTest, Machine.Valid, Translate;
    OnePage(pp0, pp1, pp2);
    ghost var t := Moment([], None, None, None);
    var r := TestAlloc(m, false, c, st, t);
    assert r == None;
    r := TestLookup(m, 0, c, st, t);
    assert r == None;
    // no page is free, so no page table can be allocated
    var e := TestInsertFails(m, pp1, 0, PTE_W, c, st, t);
    assert e < 0;

    // with pp0 free, it becomes the table
    Distinct(m, c, st, t);
    TestFree(m, pp0, c, st, t);
    e := TestInsertNew(m, pp1, c, st);
    assert e == 0;
    t := Moment([], Some(0), Some(Pte(pp1, RW)), None);
    Observe(m, c, st, t);
    assert PTE_ADDR(m.mem[m.dir][0]) == Page2pa(pp0) by {
      DecodeEncode(TableEntry(pp0));
    }
    var pa := TestVa2pa(m, 0, c, st, t);
    assert pa == Page2pa(pp1);
    assert m.ref[pp1] == 1 && m.ref[pp0] == 1;

    MapSecond(m, pp0, pp1, pp2, c, st);
  }

  /** pp2 goes next to pp1 without another table; inserting it again does not free it. */
  method MapSecond(m: Machine, pp0: FrameNo, pp1: FrameNo, pp2: FrameNo, ghost c: Setup, ghost st: Stolen)
    requires InTest(m, c, st, Moment([], Some(0), Some(Pte(pp1, RW)), None)) && c == Setup(c.base, pp0, pp1, pp2)
    modifies m`head, m`space, m`tlb, m.ref, m.link, m.mem
    ensures InTest(m, c, st, Moment([], Some(0), Some(Pte(pp1, RW)), Some(Pte(pp2, RW))))
  {
    hide InTest, Machine.Valid, Translate;
    ghost var t := Moment([], Some(0), Some(Pte(pp1, RW)), None);
    Distinct(m, c, st, t);
    var e := TestInsert(m, pp2, PGSIZE, PTE_W, c, st, t);
    t := t.(e1 := Some(Pte(pp2, RW)));
    Observe(m, c, st, t);
    var pa := TestVa2pa(m, PGSIZE, c, st, t);
    assert e == 0 && pa == Page2pa(pp2) && m.ref[pp2] == 1;
    var r := TestAlloc(m, false, c, st, t);
    assert r == None;

    e := TestInsert(m, pp2, PGSIZE, PTE_W, c, st, t);
    Observe(m, c, st, t);
    pa := TestVa2pa(m, PGSIZE, c, st, t);
    assert e == 0 && pa == Page2pa(pp2) && m.ref[pp2] == 1;
    r := TestAlloc(m, false, c, st, t);
    assert r == None;

    Permissions(m, pp0, pp1, pp2, c, st);
    e := TestInsertFails(m, pp0, PTSIZE, PTE_W, c, st, t);
    assert e < 0;
  }

  /** The walk finds the entry; its permissions can be raised and lowered by inserting again. */
  method Permissions(m: Machine, pp0: FrameNo, pp1: FrameNo, pp2: FrameNo, ghost c: Setup, ghost st: Stolen)
    requires InTest(m, c, st, Moment([], Some(0), Some(Pte(pp1, RW)), Some(Pte(pp2, RW))))
    requires c == Setup(c.base, pp0, pp1, pp2)
    modifies m`head, m`space, m`tlb, m.ref, m.link, m.mem
    ensures InTest(m, c, st, Moment([], Some(0), Some(Pte(pp1, RW)), Some(Pte(pp2, RW))))
  {
    hide InTest, Machine.Valid, Translate;
    OnePage(pp0, pp1, pp2);
    ghost var t := Moment([], Some(0), Some(Pte(pp1, RW)), Some(Pte(pp2, RW)));
    Distinct(m, c, st, t);
    var pgte := TestFind(m, PGSIZE, c, st, t);
    assert pgte == Some(PteRef(pp0, 1));

    var e := TestInsert(m, pp2, PGSIZE, PTE_W + PTE_U, c, st, t);
    t := t.(e1 := Some(Pte(pp2, RWU)));
    Observe(m, c, st, t);
    var pa := TestVa2pa(m, PGSIZE, c, st, t);
    assert e == 0 && pa == Page2pa(pp2) && m.ref[pp2] == 1;
    DecodeEncode(Pte(pp2, RWU));
    DecodeEncode(TableEntry(pp0));
    assert Decode(m.mem[pp0][1]).flags == RWU && Decode(m.mem[m.dir][0]).flags == RWU;

    e := TestInsert(m, pp2, PGSIZE, PTE_W, c, st, t);
    t := t.(e1 := Some(Pte(pp2, RW)));
    Observe(m, c, st, t);
    DecodeEncode(Pte(pp2, RW));
    assert e == 0 && Decode(m.mem[pp0][1]).flags == RW;
  }

  /** pp1 displaces pp2, which becomes free; then both pages are removed again. */
  method ReplaceAndRemove(m: Machine, pp0: FrameNo, pp1: FrameNo, pp2: FrameNo, ghost c: Setup, ghost st: Stolen)
    requires InTest(m, c, st, Moment([], Some(0), Some(Pte(pp1, RW)), Some(Pte(pp2, RW))))
    requires c == Setup(c.base, pp0, pp1, pp2)
    modifies m`head, m`space, m`tlb, m.ref, m.link, m.mem
    ensures InTest(m, c, st, Moment([], Some(0), None, None))
  {
    hide InTest, Machine.Valid, Translate;
    OnePage(pp0, pp1, pp2);
    ghost var t := Moment([], Some(0), Some(Pte(pp1, RW)), Some(Pte(pp2, RW)));
    Distinct(m, c, st, t);
    var e := TestInsert(m, pp1, PGSIZE, PTE_W, c, st, t);
    t := Moment([pp2], Some(0), Some(Pte(pp1, RW)), Some(Pte(pp1, RW)));
    Observe(m, c, st, t);
    DecodeEncode(Pte(pp1, RW));
    assert e == 0 && Decode(m.mem[pp0][1]).flags == RW;
    var pa := TestVa2pa(m, 0, c, st, t);
    assert pa == Page2pa(pp1);
    pa := TestVa2pa(m, PGSIZE, c, st, t);
    assert pa == Page2pa(pp1);
    assert m.ref[pp1] == 2 && m.ref[pp2] == 0;
    var r := TestAlloc(m, false, c, st, t);
    assert r == Some(pp2);
    t := t.(free := []);

    RemoveBoth(m, pp0, pp1, pp2, c, st);
  }

  /** pp1 stays at the second page when the first is unmapped; unmapping it there too frees it. */
  method RemoveBoth(m: Machine, pp0: FrameNo, pp1: FrameNo, pp2: FrameNo, ghost c: Setup, ghost st: Stolen)
    requires InTest(m, c, st, Moment([], Some(0), Some(Pte(pp1, RW)), Some(Pte(pp1, RW))))
    requires c == Setup(c.base, pp0, pp1, pp2)
    modifies m`head, m`space, m`tlb, m.ref, m.link, m.mem
    ensures InTest(m, c, st, Moment([], Some(0), None, None))
  {
    hide InTest, Machine.Valid, Translate;
    OnePage(pp0, pp1, pp2);
    ghost var t := Moment([], Some(0), Some(Pte(pp1, RW)), Some(Pte(pp1, RW)));
    Distinct(m, c, st, t);
    TestRemove(m, 0, c, st, t);
    t := t.(e0 := None);
    Observe(m, c, st, t);
    var pa := TestVa2pa(m, 0, c, st, t);
    assert pa == UNMAPPED;
    pa := TestVa2pa(m, PGSIZE, c, st, t);
    assert pa == Page2pa(pp1);
    assert m.ref[pp1] == 1 && m.ref[pp2] == 0;
    RemoveSecond(m, pp0, pp1, pp2, c, st);
  }

  /** Re-inserted without permissions and then unmapped, pp1 is free, and is the page handed out next. */
  method RemoveSecond(m: Machine, pp0: FrameNo, pp1: FrameNo, pp2: FrameNo, ghost c: Setup, ghost st: Stolen)
    requires InTest(m, c, st, Moment([], Some(0), None, Some(Pte(pp1, RW)))) && c == Setup(c.base, pp0, pp1, pp2)
    modifies m`head, m`space, m`tlb, m.ref, m.link, m.mem
    ensures InTest(m, c, st, Moment([], Some(0), None, None))
  {
    hide InTest, Machine.Valid, Translate;
    OnePage(pp0, pp1, pp2);
    ghost var t := Moment([], Some(0), None, Some(Pte(pp1, RW)));
    Distinct(m, c, st, t);
    var e := TestInsert(m, pp1, PGSIZE, 0, c, st, t);
    t := t.(e1 := Some(Pte(pp1, RO)));
    Observe(m, c, st, t);
    assert e == 0 && m.ref[pp1] != 0 && m.link[pp1] == None;

    TestRemove(m, PGSIZE, c, st, t);
    t := Moment([pp1], Some(0), None, None);
    Observe(m, c, st, t);
    var pa := TestVa2pa(m, 0, c, st, t);
    assert pa == UNMAPPED;
    pa := TestVa2pa(m, PGSIZE, c, st, t);
    assert pa == UNMAPPED;
    assert m.ref[pp1] == 0 && m.ref[pp2] == 0;
    var r := TestAlloc(m, false, c, st, t);
    assert r == Some(pp1);
    t := t.(free := []);
    r := TestAlloc(m, false, c, st, t);
    assert r == None;
  }

  /** Taking pp0 back by hand, using it as table of slot 1 and again of slot 0; new tables are zeroed. */
  method TablePages(m: Machine, pp0: FrameNo, pp1: FrameNo, pp2: FrameNo, ghost c: Setup, ghost st: Stolen)
    requires InTest(m, c, st, Moment([], Some(0), None, None)) && c == Setup(c.base, pp0, pp1, pp2)
    modifies m`head, m`space, m`tlb, m.ref, m.link, m.mem
    ensures InTest(m, c, st, Moment([], None, None, None))
  {
    hide InTest, Machine.Valid, Translate;
    OnePage(pp0, pp1, pp2);
    ghost var t := Moment([], Some(0), None, None);
    Observe(m, c, st, t);
    DecodeEncode(TableEntry(pp0));
    assert PTE_ADDR(m.mem[m.dir][0]) == Page2pa(pp0) && m.ref[pp0] == 1;
    TestDropTable(m, pp0, 0, c, st, t);
    OtherTables(m, pp0, pp1, pp2, c, st);
  }

  method OtherTables(m: Machine, pp0: FrameNo, pp1: FrameNo, pp2: FrameNo, ghost c: Setup, ghost st: Stolen)
    requires InTest(m, c, st, Moment([], None, None, None)) && c == Setup(c.base, pp0, pp1, pp2)
    modifies m`head, m`space, m`tlb, m.ref, m.link, m.mem
    ensures InTest(m, c, st, Moment([], None, None, None))
  {
    hide InTest, Machine.Valid, Translate;
    OnePage(pp0, pp1, pp2);
    TestFree(m, pp0, c, st, Moment([], None, None, None));
    var va := PGSIZE * NPDENTRIES + PGSIZE;
    assert PDX(va) == 1 && PTX(va) == 1;
    var pgte := TestWalk(m, va, c, st, Moment([pp0], None, None, None));
    assert pgte == Some(PteRef(pp0, PTX(va)));
    TestDropTable(m, pp0, 1, c, st, Moment([], Some(1), None, None));

    TestFill(m, pp0, 0xFFFF_FFFF, c, st, Moment([], None, None, None));
    TestFree(m, pp0, c, st, Moment([], None, None, None));
    pgte := TestWalk(m, 0, c, st, Moment([pp0], None, None, None));
    NoEntries(m, c, st);
    assert forall i :: 0 <= i < NPTENTRIES ==> m.mem[pp0][i] == 0;
    TestDropTable(m, pp0, 0, c, st, Moment([], Some(0), None, None));
  }
}
