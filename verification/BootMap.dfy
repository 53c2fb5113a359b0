/** The static mappings above UTOP: boot_map_region. */
module BootMap {
  import opened Mmu
  import opened AddressSpace
  import opened SpaceLaws
  import opened Representation
  import opened PageManager

  // -------------------------------------------------- the region as a set of pages and slots

  predicate Covers(v0: int, n: nat, v: int) {
    v0 <= v < v0 + n
  }

  /** n pages from page v0 on, mapped to as many frames from p0 on. */
  ghost function Mapped(pte: map<int, Pte>, v0: int, n: nat, p0: int, perm: Flags): map<int, Pte>
    requires 0 <= p0 && p0 + n <= NVPN
  {
    pte + map v | v in PagesFrom(v0, n) :: Pte(p0 + (v - v0), WithPresent(perm))
  }

  function PagesFrom(v0: int, n: nat): set<int> {
    set v | 0 <= v < NVPN && Covers(v0, n, v)
  }

  lemma LookupMapped(pte: map<int, Pte>, v0: int, n: nat, p0: int, perm: Flags, v: int)
    requires 0 <= p0 && p0 + n <= NVPN && 0 <= v0 && v0 + n <= NVPN
    ensures v in Mapped(pte, v0, n, p0, perm) <==> Covers(v0, n, v) || v in pte
    ensures Covers(v0, n, v) ==> Mapped(pte, v0, n, p0, perm)[v] == Pte(p0 + (v - v0), WithPresent(perm))
    ensures v in pte && !Covers(v0, n, v) ==> Mapped(pte, v0, n, p0, perm)[v] == pte[v]
  {
  }

  lemma MappedGrows(pte: map<int, Pte>, v0: int, i: nat, p0: int, perm: Flags)
    requires 0 <= p0 && p0 + i + 1 <= NVPN && 0 <= v0 && v0 + i + 1 <= NVPN
    ensures Mapped(pte, v0, i + 1, p0, perm) == Mapped(pte, v0, i, p0, perm)[v0 + i := Pte(p0 + i, WithPresent(perm))]
    ensures v0 + i !in pte ==> v0 + i !in Mapped(pte, v0, i, p0, perm)
  {
    hide Mapped;
    var more, less := Mapped(pte, v0, i + 1, p0, perm), Mapped(pte, v0, i, p0, perm);
    var v1, p1 := v0 + i, Pte(p0 + i, WithPresent(perm));
    LookupMapped(pte, v0, i, p0, perm, v1);
    forall v
      ensures v in more <==> v in less[v1 := p1]
      ensures v in more ==> more[v] == less[v1 := p1][v]
    {
      LookupMapped(pte, v0, i + 1, p0, perm, v);
      LookupMapped(pte, v0, i, p0, perm, v);
    }
  }

  /** Directory slots that n pages from v0 on need and that have no table yet. */
  ghost function Missing(table: map<int, FrameNo>, v0: int, n: nat): set<int> {
    set d | 0 <= d < NPDENTRIES && d !in table && n > 0 && d * 1024 < v0 + n && v0 < (d + 1) * 1024
  }

  lemma MissingGrows(table: map<int, FrameNo>, v0: int, i: nat, n: nat)
    requires 0 <= v0 && v0 + n <= NVPN && i < n
    ensures var d := Dir(v0 + i);
      && Missing(table, v0, i + 1) == Missing(table, v0, i) + (if d in table then {} else {d})
      && Missing(table, v0, i + 1) <= Missing(table, v0, n)
  {
    var d := Dir(v0 + i);
    forall e | e in Missing(table, v0, i + 1)
      ensures e == d || e in Missing(table, v0, i)
    {
      if e * 1024 == v0 + i {
        assert e == d;
      } else if i == 0 {
        assert e * 1024 < v0 + 1 && v0 < (e + 1) * 1024;
        assert e == d;
      }
    }
  }

  lemma SubsetIsNoLarger<T>(a: set<T>, b: set<T>)
    requires a <= b
    ensures |a| <= |b|
  {
    CardinalityOfUnion(a, b - a);
    assert a + (b - a) == b;
  }

  /** An entry above UTOP is not counted. */
  lemma PutStatic(refs: seq<Count>, s: Space, v: int, p: Pte)
    requires Inv(s) && NUSER <= v < NVPN && Dir(v) in s.table && p.flags % 2 == 1
    ensures var s' := s.(pte := s.pte[v := p]);
      && Inv(s')
      && (forall f :: RefCount(s', f) == RefCount(s, f))
      && (CountRep(refs, s) ==> CountRep(refs, s'))
  {
    forall f
      ensures RefCount(s.(pte := s.pte[v := p]), f) == RefCount(s, f)
    {
      CountPut(s, v, p, f);
    }
  }

  /** The pages are outside the self-map and have no entry. */
  ghost predicate Unmapped(s: Space, v0: int, n: nat) {
    forall v :: Covers(v0, n, v) ==> Dir(v) != SELF && v !in s.pte
  }

  lemma WalkForStatic(s: Space, v: int)
    requires Inv(s) && IsVpn(v) && Dir(v) != SELF
    ensures Inv(Walk(s, v, true)) && Walk(s, v, true).pte == s.pte
    ensures !NoRoom(s, v) <==> Dir(v) in Walk(s, v, true).table
    ensures NoRoom(s, v) ==> Walk(s, v, true) == s
  {
    WalkKeepsInv(s, v, true);
  }

  /** Turn i of the loop: walk to the entry, creating its table if need be, and store. */
  method MapPage(m: Machine, va: Word, pa: Word, i: nat, n: nat, perm: Flags) returns (ok: bool)
    requires m.Valid() && UTOP <= va && Within(va, n) && Within(pa, n) && i < n
    requires Dir(PGNUM(va) + i) != SELF && PGNUM(va) + i !in m.space.pte
    modifies m`head, m`space, m`tlb, m.ref, m.link, m.mem
    ensures m.Valid()
    ensures ok <==> !NoRoom(old(m.space), PGNUM(va) + i)
    ensures ok ==>
      0 <= PGNUM(pa) + i < NVPN
      && m.space == MapOne(old(m.space), PGNUM(va) + i, Pte(PGNUM(pa) + i, WithPresent(perm)))
    ensures !ok ==> m.space == old(m.space)
  {
    hide MemRep, ListRep, CountRep, Inv, FrameCoherent, IsTable, Kept, MayBecome, PGNUM, Within;
    PageOf(va, n, i);
    PageOf(pa, n, i);
    AboveUser(va);
    ghost var v := PGNUM(va) + i;
    WalkForStatic(m.space, v);
    var pgte := m.PgdirWalk(va + 4096 * i, true);
    if pgte.None? {
      return false;
    }
    SplitPageNumber(va + 4096 * i);
    var p := Pte(PGNUM(pa + 4096 * i), WithPresent(perm));
    PutStatic(m.ref[..], m.space, v, p);
    m.StoreEntry(pgte.value, p, v);
    return true;
  }

  /** What i turns of the loop have done to the space s. */
  ghost predicate Progress(s: Space, r: Space, v0: int, i: nat, p0: int, perm: Flags)
    requires 0 <= p0 && p0 + i <= NVPN
  {
    var missing := Missing(s.table, v0, i);
    && r.managed == s.managed
    && |missing| <= |s.free| && r.free == s.free[|missing|..]
    && Extends(s.table, r.table, missing)
    && r.pte == Mapped(s.pte, v0, i, p0, perm)
    && SameCounts(s, r)
  }

  /** Old tables stay where they are; the new slots are the given ones. */
  ghost predicate Extends(before: map<int, FrameNo>, after: map<int, FrameNo>, slots: set<int>) {
    && after.Keys == before.Keys + slots
    && forall d :: d in before ==> after[d] == before[d]
  }

  lemma ExtendMore(a: map<int, FrameNo>, b: map<int, FrameNo>, slots: set<int>, d: int, t: FrameNo)
    requires Extends(a, b, slots) && d !in b
    ensures Extends(a, b[d := t], slots + {d})
  {
  }

  /** No reference was added or dropped, except of frames that were free before. */
  ghost predicate SameCounts(s: Space, r: Space) {
    && (forall f :: f in r.free ==> f in s.free)
    && (forall f :: f !in s.free ==> RefCount(r, f) == RefCount(s, f))
  }

  lemma MapOneKeepsCounts(s: Space, r: Space, v: int, p: Pte)
    requires SameCounts(s, r) && Inv(r) && NUSER <= v < NVPN && Dir(v) != SELF && !NoRoom(r, v) && p.flags % 2 == 1
    ensures SameCounts(s, MapOne(r, v, p))
  {
    WalkKeepsInv(r, v, true);
    PutStatic([], Walk(r, v, true), v, p);
    assert forall f :: f in Walk(r, v, true).free ==> f in r.free;
  }

  /** The space after one page was mapped. */
  function MapOne(r: Space, v: int, p: Pte): Space {
    var w := Walk(r, v, true);
    w.(pte := w.pte[v := p])
  }

  lemma ProgressStart(s: Space, v0: int, p0: int, perm: Flags)
    requires 0 <= p0 <= NVPN
    ensures Progress(s, s, v0, 0, p0, perm)
  {
    assert Missing(s.table, v0, 0) == {};
    assert Mapped(s.pte, v0, 0, p0, perm) == s.pte;
  }

  lemma ProgressSlots(s: Space, r: Space, v0: int, i: nat, n: nat, p0: int, perm: Flags)
    requires 0 <= p0 && p0 + n <= NVPN && 0 <= v0 && v0 + n <= NVPN && i < n
    requires Progress(s, r, v0, i, p0, perm) && Unmapped(s, v0, n)
    ensures Dir(v0 + i) != SELF && v0 + i !in r.pte
    ensures var d, before, after := Dir(v0 + i), Missing(s.table, v0, i), Missing(s.table, v0, i + 1);
      && (HasTable(r, v0 + i) ==> after == before)
      && (!HasTable(r, v0 + i) ==> after == before + {d} && |after| == |before| + 1)
    ensures NoRoom(r, v0 + i) ==> |Missing(s.table, v0, n)| > |s.free|
  {
    hide Mapped, Missing, SameCounts, Extends, Unmapped;
    NextUnmapped(s, v0, i, n);
    MappedGrows(s.pte, v0, i, p0, perm);
    MissingGrows(s.table, v0, i, n);
    SubsetIsNoLarger(Missing(s.table, v0, i + 1), Missing(s.table, v0, n));
    SlotFilled(s.table, r.table, Missing(s.table, v0, i), Dir(v0 + i));
    OneMoreSlot(Missing(s.table, v0, i), Dir(v0 + i));
  }

  lemma NextUnmapped(s: Space, v0: int, i: nat, n: nat)
    requires Unmapped(s, v0, n) && i < n
    ensures Dir(v0 + i) != SELF && v0 + i !in s.pte
  {
    assert Covers(v0, n, v0 + i);
  }

  lemma SlotFilled(before: map<int, FrameNo>, after: map<int, FrameNo>, slots: set<int>, d: int)
    requires Extends(before, after, slots)
    ensures d in after <==> d in before || d in slots
  {
    assert d in after.Keys <==> d in before.Keys + slots;
  }

  lemma OneMoreSlot(slots: set<int>, d: int)
    ensures d in slots ==> slots + {d} == slots
    ensures d !in slots ==> |slots + {d}| == |slots| + 1
  {
  }

  lemma ProgressStep(s: Space, r: Space, v0: int, i: nat, n: nat, p0: int, perm: Flags)
    requires 0 <= p0 && p0 + n <= NVPN && NUSER <= v0 && v0 + n <= NVPN && i < n
    requires Progress(s, r, v0, i, p0, perm) && Unmapped(s, v0, n) && Inv(r) && !NoRoom(r, v0 + i)
    ensures Progress(s, MapOne(r, v0 + i, Pte(p0 + i, WithPresent(perm))), v0, i + 1, p0, perm)
  {
    hide Mapped, Missing, SameCounts, Inv, Extends, Unmapped;
    ProgressSlots(s, r, v0, i, n, p0, perm);
    MappedGrows(s.pte, v0, i, p0, perm);
    MapOneKeepsCounts(s, r, v0 + i, Pte(p0 + i, WithPresent(perm)));
    if !HasTable(r, v0 + i) {
      ExtendMore(s.table, r.table, Missing(s.table, v0, i), Dir(v0 + i), r.free[0]);
      assert r.free[1..] == s.free[|Missing(s.table, v0, i + 1)|..];
    }
  }

  /**
   What mapping n pages comes to: it succeeds exactly when the free pages suffice for the missing
   tables, and then all n pages are mapped.
   */
  ghost predicate RegionDone(s: Space, r: Space, ok: bool, v0: int, n: nat, p0: int, perm: Flags) {
    && (ok <==> |Missing(s.table, v0, n)| <= |s.free|)
    && (ok ==> 0 <= p0 && p0 + n <= NVPN && Progress(s, r, v0, n, p0, perm))
  }

  /** A state of the loop: i of n pages are done. */
  ghost predicate Turn(s: Space, r: Space, v0: int, i: nat, n: nat, p0: int, perm: Flags) {
    && 0 <= p0 && p0 + n <= NVPN && NUSER <= v0 && v0 + n <= NVPN && i <= n
    && Unmapped(s, v0, n) && Inv(r)
    && Progress(s, r, v0, i, p0, perm)
  }

  /** A turn of the loop either maps one more page or shows that the free pages do not suffice. */
  lemma NextTurn(s: Space, r: Space, v0: int, i: nat, n: nat, p0: int, perm: Flags)
    requires Turn(s, r, v0, i, n, p0, perm) && i < n
    ensures Dir(v0 + i) != SELF && v0 + i !in r.pte && p0 + i < NVPN && NUSER <= v0 + i < NVPN
    ensures NoRoom(r, v0 + i) ==> RegionDone(s, r, false, v0, n, p0, perm)
    ensures !NoRoom(r, v0 + i) ==> Turn(s, MapOne(r, v0 + i, Pte(p0 + i, WithPresent(perm))), v0, i + 1, n, p0, perm)
  {
    hide Progress, Missing, Unmapped;
    ProgressSlots(s, r, v0, i, n, p0, perm);
    if !NoRoom(r, v0 + i) {
      ProgressStep(s, r, v0, i, n, p0, perm);
      WalkKeepsInv(r, v0 + i, true);
      PutStatic([], Walk(r, v0 + i, true), v0 + i, Pte(p0 + i, WithPresent(perm)));
    }
  }

  lemma LastTurn(s: Space, r: Space, v0: int, n: nat, p0: int, perm: Flags)
    requires Turn(s, r, v0, n, n, p0, perm)
    ensures RegionDone(s, r, true, v0, n, p0, perm)
  {
  }

  /** n pages from a page-aligned address on stay within 32 bits. */
  predicate Within(la: Word, n: nat) {
    la % 4096 == 0 && PGNUM(la) + n <= NVPN
  }

  lemma PageOf(la: Word, n: nat, i: nat)
    requires Within(la, n) && i < n
    ensures la <= la + 4096 * i < 0x1_0000_0000 && PGNUM(la + 4096 * i) == PGNUM(la) + i
    ensures PGNUM(la) + n <= NVPN
  {
  }

  lemma AboveUser(va: Word)
    requires UTOP <= va
    ensures NUSER <= PGNUM(va)
  {
  }

  lemma FirstTurn(s: Space, va: Word, n: nat, pa: Word, perm: Flags)
    requires Inv(s) && UTOP <= va && Within(va, n) && Within(pa, n) && Unmapped(s, PGNUM(va), n)
    ensures Turn(s, s, PGNUM(va), 0, n, PGNUM(pa), perm)
  {
    ProgressStart(s, PGNUM(va), PGNUM(pa), perm);
  }

  lemma ValidHasInv(m: Machine)
    requires m.Valid()
    ensures Inv(m.space)
  {
  }

  /**
   Maps the pages of [va, va + size) to those of [pa, pa + size).  The source stores through the
   pointer of a failed walk; `ok` is false in that case.
   */
  method BootMapRegion(m: Machine, va: Word, size: Word, pa: Word, perm: Flags) returns (ok: bool)
    requires m.Valid() && UTOP <= va && Within(va, PGNUM(size)) && Within(pa, PGNUM(size))
    requires Unmapped(m.space, PGNUM(va), PGNUM(size))
    modifies m`head, m`space, m`tlb, m.ref, m.link, m.mem
    ensures m.Valid()
    ensures RegionDone(old(m.space), m.space, ok, PGNUM(va), PGNUM(size), PGNUM(pa), perm)
  {
    hide Machine.Valid, RegionDone, Turn, Unmapped, MapOne, NoRoom, PGNUM, Within;
    ghost var s := m.space;
    ValidHasInv(m);
    FirstTurn(s, va, PGNUM(size), pa, perm);
    var i := 0;
    while i < PGNUM(size)
      invariant 0 <= i <= PGNUM(size) && m.Valid()
      invariant Turn(s, m.space, PGNUM(va), i, PGNUM(size), PGNUM(pa), perm)
    {
      NextTurn(s, m.space, PGNUM(va), i, PGNUM(size), PGNUM(pa), perm);
      ok := MapPage(m, va, pa, i, PGNUM(size), perm);
      if !ok {
        return;
      }
      i := i + 1;
    }
    LastTurn(s, m.space, PGNUM(va), PGNUM(size), PGNUM(pa), perm);
    return true;
  }
}
