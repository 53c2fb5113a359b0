/**
 The simple form of the memory manager: which frames are free, which frame serves as page table
 for which directory slot, and a flat map from virtual page number to frame and permission.
 There are no counters here.  The references of a frame are counted from the maps, and a frame is
 reclaimed when that count is zero.  PageManager refines this with counters, links and table words.
 */
module AddressSpace {
  import opened Base
  import opened Mmu

  /** `free` is the free list, next page to hand out first. */
  datatype Space = Space(
    managed: set<FrameNo>,
    free: seq<FrameNo>,
    table: map<int, FrameNo>,
    pte: map<int, Pte>)

  ghost predicate NoDup<T>(s: seq<T>) {
    forall i, j :: 0 <= i < j < |s| ==> s[i] != s[j]
  }

  // -------------------------------------------------- references

  /** The user pages that name frame f. */
  ghost function Mappers(pte: map<int, Pte>, f: FrameNo): set<int> {
    set v | v in pte && v < NUSER && pte[v].frame == f
  }

  /** The directory slots that use frame f as their page table. */
  ghost function Slots(table: map<int, FrameNo>, f: FrameNo): set<int> {
    set d | d in table && table[d] == f
  }

  ghost function RefCount(s: Space, f: FrameNo): nat {
    |Mappers(s.pte, f)| + |Slots(s.table, f)|
  }

  /** 1 when user page v names f, 0 otherwise. */
  ghost function Names(pte: map<int, Pte>, v: int, f: FrameNo): nat {
    if v in pte && v < NUSER && pte[v].frame == f then 1 else 0
  }

  lemma MappersDrop(m: map<int, Pte>, v: int, f: FrameNo)
    ensures Mappers(m - {v}, f) == Mappers(m, f) - {v}
  {
  }

  lemma MappersPut(m: map<int, Pte>, v: int, p: Pte, f: FrameNo)
    ensures Mappers(m[v := p], f) == Mappers(m, f) - {v} + (if v < NUSER && p.frame == f then {v} else {})
  {
    var after := Mappers(m[v := p], f);
    forall u | u != v
      ensures u in after <==> u in Mappers(m, f)
    {
    }
  }

  lemma SlotsPut(m: map<int, FrameNo>, d: int, t: FrameNo, f: FrameNo)
    requires d !in m
    ensures d !in Slots(m, f)
    ensures Slots(m[d := t], f) == Slots(m, f) + (if t == f then {d} else {})
  {
    forall e | e != d
      ensures e in Slots(m[d := t], f) <==> e in Slots(m, f)
    {
    }
  }

  lemma CountDrop(s: Space, v: int, f: FrameNo)
    ensures RefCount(s.(pte := s.pte - {v}), f) == RefCount(s, f) - Names(s.pte, v, f)
  {
    MappersDrop(s.pte, v, f);
    assert v in Mappers(s.pte, f) <==> Names(s.pte, v, f) == 1;
  }

  lemma CountPut(s: Space, v: int, p: Pte, f: FrameNo)
    ensures RefCount(s.(pte := s.pte[v := p]), f)
         == RefCount(s, f) - Names(s.pte, v, f) + (if v < NUSER && p.frame == f then 1 else 0)
  {
    MappersPut(s.pte, v, p, f);
    assert v in Mappers(s.pte, f) <==> Names(s.pte, v, f) == 1;
  }

  lemma CountTable(s: Space, d: int, t: FrameNo, f: FrameNo)
    requires d !in s.table
    ensures RefCount(s.(table := s.table[d := t]), f) == RefCount(s, f) + (if t == f then 1 else 0)
  {
    SlotsPut(s.table, d, t, f);
  }

  lemma NamedIsCounted(s: Space, v: int)
    requires v in s.pte && v < NUSER
    ensures RefCount(s, s.pte[v].frame) > 0
  {
    assert v in Mappers(s.pte, s.pte[v].frame);
  }

  lemma TableIsCounted(s: Space, d: int)
    requires d in s.table
    ensures RefCount(s, s.table[d]) > 0
  {
    assert d in Slots(s.table, s.table[d]);
  }

  // -------------------------------------------------- invariant

  /** Slots other than the self-map own distinct managed frames that are not free. */
  ghost predicate TablesOk(s: Space) {
    && (forall d :: d in s.table ==> 0 <= d < NPDENTRIES && d != SELF)
    && (forall d :: d in s.table ==> s.table[d] in s.managed && s.table[d] !in s.free)
    && (forall d, e :: d in s.table && e in s.table && s.table[d] == s.table[e] ==> d == e)
  }

  ghost predicate IsTable(table: map<int, FrameNo>, f: FrameNo) {
    exists d :: d in table && table[d] == f
  }

  /** Entries live in existing tables; user entries name managed frames. */
  ghost predicate EntriesOk(s: Space) {
    && (forall v :: v in s.pte ==> IsVpn(v) && Dir(v) in s.table && s.pte[v].flags % 2 == 1)
    && (forall v :: v in s.pte && v < NUSER ==> s.pte[v].frame in s.managed)
  }

  ghost predicate FreeOk(s: Space) {
    && NoDup(s.free)
    && (forall f :: f in s.free ==> f in s.managed)
  }

  ghost predicate Wf(s: Space) {
    FreeOk(s) && TablesOk(s) && EntriesOk(s)
  }

  /** The invariant of every reachable state: in addition, nothing refers to a free frame. */
  ghost predicate Inv(s: Space) {
    Wf(s) && forall f :: f in s.free ==> RefCount(s, f) == 0
  }

  /** Allocated, but not yet referenced by any entry or slot. */
  ghost predicate Held(s: Space, f: FrameNo) {
    f in s.managed && f !in s.free && RefCount(s, f) == 0
  }

  ghost predicate InUse(s: Space, f: FrameNo) {
    f in s.managed && RefCount(s, f) > 0
  }

  // -------------------------------------------------- operations

  function Alloc(s: Space): Space
    requires s.free != []
  {
    s.(free := s.free[1..])
  }

  function Release(s: Space, f: FrameNo): Space {
    s.(free := [f] + s.free)
  }

  /** True when the table that covers page v exists (the self-map slot always does). */
  predicate HasTable(s: Space, v: int) {
    Dir(v) == SELF || Dir(v) in s.table
  }

  /** A walk with `create` gives a missing slot the first free frame as table. */
  function Walk(s: Space, v: int, create: bool): Space {
    if HasTable(s, v) || !create || s.free == [] then s
    else Alloc(s).(table := s.table[Dir(v) := s.free[0]])
  }

  /** Give f back if nothing refers to it any more. */
  ghost function Reclaim(s: Space, f: FrameNo): Space {
    if RefCount(s, f) == 0 then Release(s, f) else s
  }

  /** Delete user page v from the map; its frame is reclaimed if this was the last reference. */
  ghost function Remove(s: Space, v: int): Space {
    if v in s.pte then Reclaim(s.(pte := s.pte - {v}), s.pte[v].frame) else s
  }

  /** Update the map at user page v; a displaced frame is reclaimed if this was its last reference. */
  ghost function Put(s: Space, v: int, p: Pte): Space {
    var t := s.(pte := s.pte[v := p]);
    if v in s.pte then Reclaim(t, s.pte[v].frame) else t
  }

  /** True when inserting at page v runs out of memory. */
  predicate NoRoom(s: Space, v: int) {
    !HasTable(s, v) && s.free == []
  }

  ghost function Insert(s: Space, f: FrameNo, v: int, perm: Flags): Space {
    if NoRoom(s, v) then s else Put(Walk(s, v, true), v, Pte(f, WithPresent(perm)))
  }

  /** What the hardware finds for page v; the self-map slot shows the directory's own entries. */
  function Translate(s: Space, dir: FrameNo, v: int): (r: Option<Pte>) {
    if Dir(v) != SELF then (if v in s.pte then Some(s.pte[v]) else None)
    else if Index(v) == SELF then Some(Pte(dir, PTE_U + PTE_P))
    else if Index(v) in s.table then Some(TableEntry(s.table[Index(v)]))
    else None
  }

  /** The directory entry that installs frame t as a page table. */
  function TableEntry(t: FrameNo): Pte {
    Pte(t, PTE_U + PTE_W + PTE_P)
  }
}
