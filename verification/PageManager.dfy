/**
 The memory manager as the kernel runs it: page records with a 16-bit counter and a link, a page
 directory and tables in physical frames, and a translation buffer that the hardware may fill at
 any moment.  Every operation is proved against the simple form in AddressSpace.
 */
module PageManager {
  import opened Base
  import opened Mmu
  import opened AddressSpace
  import opened SpaceLaws
  import opened Representation
  import opened Access

  const E_NO_MEM := 4

  /** What check_va2pa answers for an unmapped address: all bits set. */
  const UNMAPPED: Word := 0xFFFF_FFFF

  class Machine {
    const npages: nat
    const dir: FrameNo
    const ref: array<Count>
    const link: array<PagePtr>
    const mem: array<Frame>
    var head: PagePtr

    ghost var space: Space
    ghost var tlb: Tlb

    /** Whether the processor translates through this directory. */
    ghost var loaded: bool

    /**
     A machine with given memory contents, in which the frame of the directory has been cleared and
     made to map itself.  The page records hold whatever the memory held.
     */
    constructor (npages: nat, dir: FrameNo, contents: seq<Frame>)
      requires dir < npages == |contents| <= 0x1_0000
      ensures Shape() && this.npages == npages && this.dir == dir && !loaded
      ensures fresh(ref) && fresh(link) && fresh(mem)
      ensures mem[..] == contents[dir := ZEROS[SELF := Encode(Pte(dir, PTE_U + PTE_P))]]
    {
      this.npages := npages;
      this.dir := dir;
      ref := new Count[npages];
      link := new PagePtr[npages];
      mem := new Frame[npages](i requires 0 <= i < npages => contents[i]);
      head := None;
      space := Space({}, [], map[], map[]);
      tlb := map[];
      loaded := false;
      new;
      assert mem[..] == contents;
      mem[dir] := ZEROS;
      mem[dir] := mem[dir][SELF := Encode(Pte(dir, PTE_U + PTE_P))];
    }

    // ------------------------------------------------ representation invariant

    /** Physical memory is at most the 256MB that fit above KERNBASE. */
    ghost predicate Shape() {
      && npages <= 0x1_0000
      && ref.Length == npages && link.Length == npages && mem.Length == npages
      && ref as object != link && ref as object != mem && link as object != mem
    }

    ghost predicate AllocOk()
      reads this, link
    {
      Shape() && ListRep(link[..], head, space)
    }

    ghost predicate TablesRep()
      reads this, mem
    {
      Shape() && dir < npages && MemRep(mem[..], dir, space)
    }

    ghost predicate CountOk()
      reads this, ref
    {
      Shape() && CountRep(ref[..], space)
    }

    /** Nothing of a directory that is not in use is cached. */
    ghost predicate BufferOk()
      reads this
    {
      FrameCoherent(space, dir, tlb) && (loaded || tlb == map[])
    }

    /** Everything but the counters. */
    ghost predicate Sound()
      reads this, link, mem
    {
      AllocOk() && TablesRep() && Inv(space) && BufferOk()
    }

    ghost predicate Valid()
      reads this, ref, link, mem
    {
      Sound() && CountOk()
    }

    /** A page below UTOP that a caller may insert. */
    ghost predicate Owned(f: FrameNo)
      reads this
    {
      f in space.managed && f !in space.free
    }

    ghost predicate Maps(v: int, f: FrameNo)
      reads this
    {
      v in space.pte && space.pte[v].frame == f
    }

    ghost function Snap(): Snapshot
      reads ref, link, mem
    {
      Snapshot(ref[..], link[..], mem[..])
    }

    /** Nothing was touched but managed page records, page tables and the directory. */
    twostate predicate OthersKept()
      reads this, ref, link, mem
    {
      Kept(old(Snap()), Snap(), space, dir)
    }

    /** How the buffer may have changed meanwhile, with the pages in `flushed` invalidated. */
    twostate predicate Cached(flushed: set<int>)
      reads this
    {
      MayBecome(old(space), space, dir, old(tlb), tlb, flushed)
    }

    // ------------------------------------------------ hardware

    ghost predicate MayCache(before: Tlb, after: Tlb)
      reads this`loaded, mem
    {
      forall v :: v in after ==>
        || (v in before && after[v] == before[v])
        || (loaded && IsVpn(v) && HardwareWalk(mem[..], dir, v) == Some(after[v]))
    }

    /** The processor may drop cached entries and cache any translation the tables now hold. */
    ghost method Speculate()
      modifies this`tlb
      ensures MayCache(old(tlb), tlb)
    {
      assert MayCache(tlb, tlb);
      var t: Tlb :| MayCache(tlb, t);
      tlb := t;
    }

    /**
     Caching what the tables hold cannot make the buffer incoherent, at pages outside `stale`; it is one
     of the ways in which the buffer may change, whatever the space was before.
     */
    lemma CachingKeepsCoherence(before: Tlb, stale: set<int>, was: Space)
      requires TablesRep() && MayCache(before, tlb)
      requires FrameCoherent(space, dir, before - stale) && (loaded || before == map[])
      ensures FrameCoherent(space, dir, tlb - stale) && (loaded || tlb == map[])
      ensures MayBecome(was, space, dir, before, tlb, {})
    {
      forall v | v in tlb && (v !in before || tlb[v] != before[v])
        ensures IsVpn(v) && Translate(space, dir, v) == Some(tlb[v])
      {
        WalkIsTranslate(mem[..], dir, space, v);
      }
      assert loaded || forall v :: v !in tlb;
    }

    /** Between any two steps of the kernel the processor may use its buffer. */
    ghost method Idle()
      requires Sound()
      modifies this`tlb
      ensures Sound() && Cached({}) && MayCache(old(tlb), tlb)
    {
      ghost var t := tlb;
      Speculate();
      assert t - {} == t && tlb - {} == tlb;
      CachingKeepsCoherence(t, {}, space);
    }

    /** Loads the directory, which empties the buffer. */
    method LoadDirectory()
      requires Sound()
      modifies this`tlb, this`loaded
      ensures Sound() && loaded && tlb == map[]
    {
      tlb := map[];
      loaded := true;
    }

    method TlbInvalidate(va: Word)
      modifies this`tlb
      ensures tlb == old(tlb) - {PGNUM(va)}
    {
      tlb := tlb - {PGNUM(va)};
    }

    // ------------------------------------------------ allocator

    /** Hands out the first free page, zeroed on request; None exactly when there is none. */
    method PageAlloc(zero: bool) returns (r: PagePtr)
      requires Valid()
      modifies this`head, this`space, ref, link, mem
      ensures Valid()
      ensures old(space.free) == [] ==>
        r == None && space == old(space) && head == old(head) && unchanged(ref, link, mem)
      ensures old(space.free) != [] ==>
        && old(space.free[0]) < npages
        && r == Some(old(space.free[0]))
        && space == Alloc(old(space))
        && ref[..] == old(ref[..])
        && mem[..] == (if zero then old(mem[..])[r.value := ZEROS] else old(mem[..]))
        && link[..] == old(link[..])[r.value := None]
        && head == old(link[r.value])
    {
      hide MemRep, ListRep, CountRep, Inv, FrameCoherent;
      RepAlloc(ref[..], link[..], head, mem[..], dir, space, tlb);
      if head.None? {
        return None;
      }
      var f := head.value;
      var tmp := link[f];
      link[f] := None;
      ref[f] := 0;
      if zero {
        mem[f] := ZEROS;
      }
      r := head;
      head := tmp;
      space := Alloc(space);

      assert link[..] == old(link[..])[f := None];
      assert ref[..] == old(ref[..]);
      assert mem[..] == if zero then old(mem[..])[f := ZEROS] else old(mem[..]);
    }

    /**
     Puts a page back at the head of the list.  The source's test for a double free looks at the
     counter and the link only; `panicked` is its outcome.
     */
    method PageFree(pp: FrameNo) returns (panicked: bool)
      requires AllocOk() && pp < npages
      modifies this`head, this`space, ref, link
      ensures panicked <==> old(link[pp] != None || ref[pp] != 0)
      ensures panicked ==> unchanged(this, ref, link)
      ensures !panicked ==>
        && link[..] == old(link[..])[pp := old(head)]
        && head == Some(pp)
        && ref[..] == old(ref[..])
      ensures !panicked && old(Owned(pp)) ==> AllocOk() && space == Release(old(space), pp)
      ensures !old(Owned(pp)) ==> space == old(space)
    {
      if link[pp] != None || ref[pp] != 0 {
        return true;
      }
      panicked := false;
      if Owned(pp) {
        PushRep(link[..], head, space, pp);
      }
      ref[pp] := 0;
      link[pp] := head;
      head := Some(pp);
      assert link[..] == old(link[..])[pp := old(head)];
      assert ref[..] == old(ref[..]);
      if Owned(pp) {
        space := Release(space, pp);
      }
    }

    /** Drops one reference; the page goes back to the list when none is left. */
    method PageDecref(pp: FrameNo)
      requires AllocOk() && Owned(pp)
      modifies this`head, this`space, ref, link
      ensures AllocOk()
      ensures ref[..] == old(ref[..])[pp := if old(ref[pp]) == 0 then 65535 else old(ref[pp]) - 1]
      ensures space == if ref[pp] == 0 then Release(old(space), pp) else old(space)
      ensures OthersKept()
    {
      ref[pp] := Decrement(ref[pp]);
      assert ref[..] == old(ref[..])[pp := Decrement(old(ref[pp]))];
      if ref[pp] == 0 {
        var panicked := PageFree(pp);
      }
      KeptByRecord(old(Snap()), Snap(), space, dir, pp);
    }

    // ------------------------------------------------ page tables

    /** Gives a missing slot a zeroed page as its table; fails, and changes nothing, exactly when no page is free. */
    method AddTable(va: Word) returns (ok: bool)
      requires Valid() && !HasTable(space, PGNUM(va))
      modifies this`head, this`space, this`tlb, ref, link, mem
      ensures ok <==> old(space.free) != []
      ensures Valid() && space == Walk(old(space), PGNUM(va), true) && OthersKept() && Cached({})
      ensures !ok ==> head == old(head) && unchanged(ref, link, mem)
    {
      hide MemRep, ListRep, CountRep, Inv, FrameCoherent, IsTable, Kept, MayBecome;
      ghost var v := PGNUM(va);
      SplitPageNumber(va);
      if space.free != [] {
        RepNewTable(ref[..], link[..], head, mem[..], dir, space, tlb, v);
      }
      var pp := PageAlloc(true);
      if pp.None? {
        KeptSame(Snap(), space, dir);
        SameIsAllowed(space, space, dir, tlb, {});
        return false;
      }
      var t := pp.value;
      mem[dir] := mem[dir][PDX(va) := Encode(TableEntry(t))];
      ref[t] := Increment(ref[t]);
      space := space.(table := space.table[PDX(va) := t]);

      assert mem[..] == old(mem[..])[t := ZEROS][dir := old(mem[dir])[Dir(v) := Encode(TableEntry(t))]];
      assert ref[..] == old(ref[..])[t := Increment(old(ref[t]))];
      assert space == Walk(old(space), v, true);
      KeptByNewTable(old(Snap()), Snap(), space, dir, t, ZEROS, mem[dir]);
      Speculate();
      assert old(tlb) - {} == old(tlb) && tlb - {} == tlb;
      CachingKeepsCoherence(old(tlb), {}, old(space));
      return true;
    }

    /**
     The table entry for `va`, None when its table is missing and is not to be, or cannot be, created.
     A call without `create` changes nothing.
     */
    method PgdirWalk(va: Word, create: bool) returns (r: Option<PteRef>)
      requires TablesRep()
      requires create ==> Valid()
      modifies (if create then {this} else {})`head, (if create then {this} else {})`space
      modifies (if create then {this} else {})`tlb
      modifies if create then {ref} else {}, if create then {link} else {}, if create then {mem} else {}
      ensures TablesRep()
      ensures create ==> Valid() && space == Walk(old(space), PGNUM(va), true) && OthersKept() && Cached({})
      ensures space == old(space) ==> head == old(head) && unchanged(ref, link, mem)
      ensures r == if HasTable(space, PGNUM(va)) then Some(PteRef(TableOf(space, dir, PGNUM(va)), PTX(va))) else None
    {
      hide MemRep, ListRep, CountRep, Inv, FrameCoherent, IsTable, Kept, MayBecome;
      SplitPageNumber(va);
      ReadSlot(mem[..], dir, space, PGNUM(va));
      KeptSame(Snap(), space, dir);
      SameIsAllowed(space, space, dir, tlb, {});
      if !Present(mem[dir][PDX(va)]) {
        if !create {
          return None;
        }
        var ok := AddTable(va);
        if !ok {
          return None;
        }
        ReadSlot(mem[..], dir, space, PGNUM(va));
      }
      return Some(PteRef(Decode(mem[dir][PDX(va)]).frame, PTX(va)));
    }

    /** The page mapped at a user address. */
    method PageLookup(va: Word) returns (r: PagePtr)
      requires TablesRep() && va < UTOP
      ensures r == if PGNUM(va) in space.pte then Some(space.pte[PGNUM(va)].frame) else None
    {
      var pgte := PgdirWalk(va, false);
      if pgte.None? {
        return None;
      }
      ReadEntry(mem[..], dir, space, PGNUM(va));
      var w := mem[pgte.value.frame][pgte.value.index];
      if w == 0 {
        return None;
      }
      return Some(Decode(w).frame);
    }

    /** The physical address of the page that holds `va`, for any address at all. */
    method CheckVa2pa(va: Word) returns (r: Word)
      requires Valid()
      ensures var t := Translate(space, dir, PGNUM(va));
        r == if t.Some? then t.value.frame * 4096 else 0xFFFF_FFFF
    {
      WalkIsTranslate(mem[..], dir, space, PGNUM(va));
      SplitPageNumber(va);
      assert mem[..][dir][PDX(va)] == DirWord(space, dir, PDX(va));
      var pde := mem[dir][PDX(va)];
      if !Present(pde) {
        return UNMAPPED;
      }
      var table := Decode(pde).frame;
      DecodeEncode(Pte(dir, PTE_U + PTE_P));
      if PDX(va) in space.table {
        DecodeEncode(TableEntry(space.table[PDX(va)]));
      }
      assert table < npages;
      var p := mem[table][PTX(va)];
      if !Present(p) {
        return UNMAPPED;
      }
      return PTE_ADDR(p);
    }

    // ------------------------------------------------ memory accesses

    /** What the processor reads at a mapped address: a buffered translation names the same frame as the tables. */
    method LoadWord(va: Word) returns (w: Word)
      requires Sound() && va % 4 == 0 && Translate(space, dir, PGNUM(va)).Some?
      requires Translate(space, dir, PGNUM(va)).value.frame < npages
      ensures var f := Translate(space, dir, PGNUM(va)).value.frame;
        w == mem[f][PGOFF(va) / 4] && (PGNUM(va) in tlb ==> tlb[PGNUM(va)].frame == f)
    {
      hide MemRep, ListRep, Inv;
      SplitPageNumber(va);
      WalkIsTranslate(mem[..], dir, space, PGNUM(va));
      var t := Decode(mem[dir][PDX(va)]).frame;
      var f := Decode(mem[t][PTX(va)]).frame;
      w := mem[f][PGOFF(va) / 4];
    }

    /** A store to a mapped address, in a frame that holds neither the directory nor a table. */
    method StoreWord(va: Word, w: Word)
      requires Valid() && va % 4 == 0 && Translate(space, dir, PGNUM(va)).Some?
      requires var f := Translate(space, dir, PGNUM(va)).value.frame;
        f < npages && f != dir && !IsTable(space.table, f)
      modifies mem
      ensures Valid()
      ensures var f := Translate(space, dir, PGNUM(va)).value.frame;
        mem[..] == old(mem[..])[f := old(mem[f])[PGOFF(va) / 4 := w]]
    {
      hide MemRep, ListRep, CountRep, Inv, FrameCoherent, IsTable;
      SplitPageNumber(va);
      WalkIsTranslate(mem[..], dir, space, PGNUM(va));
      var t := Decode(mem[dir][PDX(va)]).frame;
      var f := Decode(mem[t][PTX(va)]).frame;
      WriteOther(mem[..], dir, space, f, mem[f][PGOFF(va) / 4 := w]);
      mem[f] := mem[f][PGOFF(va) / 4 := w];
      assert mem[..] == old(mem[..])[f := old(mem[f])[PGOFF(va) / 4 := w]];
    }

    // ------------------------------------------------ inserting and removing pages

    /**
     Clears the entry of page va and then invalidates it; the processor may still cache things in
     between, but not this page, which is no longer present.
     */
    method ClearEntry(pgte: PteRef, va: Word)
      requires AllocOk() && TablesRep() && BufferOk() && va < UTOP
      requires PGNUM(va) in space.pte
      requires Dir(PGNUM(va)) in space.table && pgte == PteRef(space.table[Dir(PGNUM(va))], Index(PGNUM(va)))
      modifies this`space, this`tlb, mem
      ensures AllocOk() && TablesRep() && BufferOk() && OthersKept() && Cached({PGNUM(va)})
      ensures space == old(space).(pte := old(space).pte - {PGNUM(va)})
    {
      hide MemRep, ListRep, FrameCoherent, IsTable, Kept;
      ghost var v := PGNUM(va);
      ghost var s' := space.(pte := space.pte - {v});
      ReadEntry(mem[..], dir, space, v);
      RepCleared(mem[..], dir, space, s', tlb, v);
      ListIgnoresTables(link[..], head, space, s');
      SplitVpn(v);
      mem[pgte.frame] := mem[pgte.frame][pgte.index := 0];
      space := s';
      assert mem[..] == old(mem[..])[pgte.frame := old(mem[..])[pgte.frame][pgte.index := 0]];
      KeptByStore(old(Snap()), Snap(), space, dir, pgte.frame, mem[pgte.frame]);
      Speculate();
      CachingKeepsCoherence(old(tlb), {v}, old(space));
      TlbInvalidate(va);
    }

    /** Unmaps a user page: a delete in the flat map. */
    method PageRemove(va: Word)
      requires Valid() && va < UTOP
      modifies this`head, this`space, this`tlb, ref, link, mem
      ensures Valid() && OthersKept() && Cached(Flushed(old(space), OpRemove(PGNUM(va))))
      ensures space == Remove(old(space), PGNUM(va))
    {
      hide MemRep, ListRep, CountRep, Inv, FrameCoherent, IsTable, Kept, MayBecome;
      ghost var s, v := space, PGNUM(va);
      var pp := PageLookup(va);
      if pp.None? {
        KeptSame(Snap(), space, dir);
        SameIsAllowed(space, space, dir, tlb, {});
        return;
      }
      RepDropped(ref[..], mem[..], dir, s, tlb, v);
      RemoveKeepsInv(s, v);
      PageDecref(pp.value);
      assert ref[..] == old(ref[..])[pp.value := Decrement(old(ref[..])[pp.value])];
      assert CountRep(ref[..], Remove(s, v));
      ghost var s1, snap1 := space, Snap();

      var pgte := PgdirWalk(va, false);
      ReadEntry(mem[..], dir, space, v);
      SplitPageNumber(va);
      if mem[pgte.value.frame][pgte.value.index] != 0 {
        ClearEntry(pgte.value, va);
        KeptTransitive(old(Snap()), snap1, Snap(), s1, space, dir);
        CacheRemoved(s, s1, space, dir, old(tlb), tlb, v);
      }
    }

    /** Stores through a pointer to page v's entry: a new entry, or new flags for the same frame. */
    method StoreEntry(pgte: PteRef, p: Pte, ghost v: int)
      requires AllocOk() && TablesRep() && BufferOk()
      requires IsVpn(v) && Dir(v) in space.table && pgte == PteRef(space.table[Dir(v)], Index(v))
      requires p.flags % 2 == 1 && (v < NUSER ==> p.frame in space.managed)
      requires v in space.pte ==> space.pte[v].frame == p.frame
      modifies this`space, this`tlb, mem
      ensures AllocOk() && TablesRep() && BufferOk() && OthersKept() && Cached({})
      ensures space == old(space).(pte := old(space).pte[v := p])
    {
      hide MemRep, ListRep, FrameCoherent, IsTable, Kept;
      ReadEntry(mem[..], dir, space, v);
      RepWritten(mem[..], dir, space, tlb, v, p);
      ListIgnoresTables(link[..], head, space, space.(pte := space.pte[v := p]));
      SplitVpn(v);
      mem[pgte.frame] := mem[pgte.frame][pgte.index := Encode(p)];
      space := space.(pte := space.pte[v := p]);
      assert mem[..] == old(mem[..])[pgte.frame := mem[pgte.frame]];
      KeptByStore(old(Snap()), Snap(), space, dir, pgte.frame, mem[pgte.frame]);
      Speculate();
      assert old(tlb) - {} == old(tlb) && tlb - {} == tlb;
      CachingKeepsCoherence(old(tlb), {}, old(space));
    }

    /** A new entry, counted once more. */
    method MapNew(pgte: PteRef, p: Pte, ghost v: int)
      requires Valid() && 0 <= v < NUSER && v !in space.pte && Owned(p.frame) && p.flags % 2 == 1
      requires Dir(v) in space.table && pgte == PteRef(space.table[Dir(v)], Index(v))
      modifies this`space, this`tlb, ref, mem
      ensures space == Put(old(space), v, p) == old(space).(pte := old(space).pte[v := p])
      ensures Sound() && OthersKept() && Cached({})
      ensures CountOk() <==> old(ref[p.frame]) < 65535
    {
      hide MemRep, ListRep, CountRep, Inv, FrameCoherent, IsTable, Kept, MayBecome;
      SameCounter(ref[..], space, ref[..], space, p.frame);
      CountInserted(ref[..], space, v, p);
      PutKeepsInv(space, v, p);
      StoreEntry(pgte, p, v);
      ghost var s1, snap1 := space, Snap();
      ref[p.frame] := Increment(ref[p.frame]);
      assert ref[..] == snap1.refs[p.frame := Increment(snap1.refs[p.frame])];
      KeptByRecord(snap1, Snap(), space, dir, p.frame);
      KeptTransitive(old(Snap()), snap1, Snap(), s1, space, dir);
    }

    /**
     Makes the entry of an existing table map page va to pp.  The counters keep counting unless pp's
     counter wraps.
     */
    method MapAt(pgte: PteRef, pp: FrameNo, va: Word, perm: Flags)
      requires Valid() && va < UTOP && Owned(pp)
      requires Dir(PGNUM(va)) in space.table && pgte == PteRef(space.table[Dir(PGNUM(va))], Index(PGNUM(va)))
      modifies this`head, this`space, this`tlb, ref, link, mem
      ensures space == Put(old(space), PGNUM(va), Pte(pp, WithPresent(perm)))
      ensures Sound() && OthersKept() && Cached(Flushed(old(space), OpInsert(pp, PGNUM(va), perm)))
      ensures CountOk() <==> old(ref[pp]) < 65535 || old(Maps(PGNUM(va), pp))
    {
      hide MemRep, ListRep, CountRep, Inv, FrameCoherent, IsTable, Kept, MayBecome;
      ghost var v := PGNUM(va);
      var p := Pte(pp, WithPresent(perm));
      ReadEntry(mem[..], dir, space, v);
      KeptSame(Snap(), space, dir);
      SameIsAllowed(space, space, dir, tlb, {});
      var w := mem[pgte.frame][pgte.index];
      if w != 0 {
        if PTE_ADDR(w) == Page2pa(pp) {
          CountRewritten(ref[..], space, v, p);
          PutKeepsInv(space, v, p);
          StoreEntry(pgte, p, v);
          return;
        }
        RemoveThenPut(space, v, p);
        StaysOwned(space, v, pp);
        PageRemove(va);
        DroppingKeepsCoherence(space, dir, tlb, {v});
        DroppingIsAllowed(old(space), space, dir, old(tlb), tlb, {v}, {v});
        TlbInvalidate(va);
      }
      ghost var s1, snap1, tlb1 := space, Snap(), tlb;
      SameCounter(old(ref[..]), old(space), ref[..], space, pp);
      MapNew(pgte, p, v);
      KeptTransitive(old(Snap()), snap1, Snap(), s1, space, dir);
      CacheMapped(old(space), s1, space, dir, old(tlb), tlb1, tlb, OpInsert(pp, v, perm));
    }

    lemma InsertedRights(pp: FrameNo, v: int, perm: Flags)
      requires TablesRep() && 0 <= v < NUSER && v in space.pte && space.pte[v] == Pte(pp, WithPresent(perm))
      ensures RightsOf(mem[..], dir, v) == Some(Rights(perm / 4 % 2 == 1, perm / 2 % 2 == 1))
      ensures HardwareWalk(mem[..], dir, v).Some? && HardwareWalk(mem[..], dir, v).value.frame == pp
    {
      GrantedRights(mem[..], dir, space, v, pp, perm);
      WalkIsTranslate(mem[..], dir, space, v);
    }

    /**
     Maps page pp at a user address: an update of the flat map, or, exactly when a table is missing and
     no page is free, an error and no change.
     */
    method PageInsert(pp: FrameNo, va: Word, perm: Flags) returns (r: int)
      requires Valid() && va < UTOP && Owned(pp)
      modifies this`head, this`space, this`tlb, ref, link, mem
      ensures r == if NoRoom(old(space), PGNUM(va)) then -E_NO_MEM else 0
      ensures space == Insert(old(space), pp, PGNUM(va), perm)
      ensures r == 0 ==>
        && TablesRep()
        && RightsOf(mem[..], dir, PGNUM(va)) == Some(Rights(perm / 4 % 2 == 1, perm / 2 % 2 == 1))
        && HardwareWalk(mem[..], dir, PGNUM(va)).Some?
        && HardwareWalk(mem[..], dir, PGNUM(va)).value.frame == pp
      ensures r != 0 ==> head == old(head) && unchanged(ref, link, mem)
      ensures Sound() && OthersKept() && Cached(Flushed(old(space), OpInsert(pp, PGNUM(va), perm)))
      ensures CountOk() <==> r != 0 || old(ref[pp]) < 65535 || old(Maps(PGNUM(va), pp))
    {
      hide MemRep, ListRep, CountRep, Inv, FrameCoherent, IsTable, Kept, MayBecome;
      StaysOwned(space, PGNUM(va), pp);
      NoRoomIsUnmapped(space, PGNUM(va));
      var pgte := PgdirWalk(va, true);
      if pgte.None? {
        return -E_NO_MEM;
      }
      ghost var s1, snap1, tlb1 := space, Snap(), tlb;
      SplitPageNumber(va);
      SameCounter(old(ref[..]), old(space), ref[..], space, pp);
      MapAt(pgte.value, pp, va, perm);
      KeptTransitive(old(Snap()), snap1, Snap(), s1, space, dir);
      CacheInserted(old(space), s1, space, dir, old(tlb), tlb1, tlb, OpInsert(pp, PGNUM(va), perm));
      InsertedRights(pp, PGNUM(va), perm);
      return 0;
    }
  }
}
