/**
 Whole runs of the machine: any sequence of calls that respects the callers' duties takes the
 machine through the states of the simple form, so everything proved of those runs holds here.
 */
module Runs {
  import opened Base
  import opened Mmu
  import opened AddressSpace
  import opened SpaceLaws
  import opened Representation
  import opened PageManager

  /** Frees a page that its caller holds: it passes the test and keeps every invariant. */
  method FreeHeld(m: Machine, f: FrameNo)
    requires m.Valid() && Held(m.space, f)
    modifies m`head, m`space, m.ref, m.link
    ensures m.Valid() && m.space == Release(old(m.space), f) && f < m.npages
    ensures m.ref[..] == old(m.ref[..]) && m.link[..] == old(m.link[..])[f := old(m.head)]
  {
    hide MemRep, Inv, FrameCoherent;
    FreeTestExactly(m.ref[..], m.link[..], m.head, m.space, f);
    ReleaseKeepsInv(m.space, f);
    FreedRep(m.mem[..], m.dir, m.space, m.tlb, f);
    var panicked := m.PageFree(f);
    assert !panicked;
  }

  /**
   Executes one operation; it refines the corresponding step of the simple form, and the buffer changes
   only as a step allows.
   */
  method Perform(m: Machine, op: Op)
    requires m.Valid() && Enabled(m.space, op)
    modifies m`head, m`space, m`tlb, m.ref, m.link, m.mem
    ensures m.Valid() && m.space == Step(old(m.space), op)
    ensures TlbStep(old(m.space), op, m.dir, old(m.tlb), m.tlb)
  {
    hide Rep, ListRep, MemRep, CountRep, Inv, FrameCoherent, MayBecome;
    match op
    case OpAlloc(zero) =>
      var _ := m.PageAlloc(zero);
      SameIsAllowed(old(m.space), m.space, m.dir, m.tlb, {});
    case OpFree(f) =>
      FreeHeld(m, f);
      SameIsAllowed(old(m.space), m.space, m.dir, m.tlb, {});
    case OpWalk(v, create) =>
      AddressOf(v);
      SameIsAllowed(m.space, m.space, m.dir, m.tlb, {});
      var _ := m.PgdirWalk(v * PGSIZE, create);
    case OpInsert(f, v, perm) =>
      AddressOf(v);
      CounterOf(m, f);
      var _ := m.PageInsert(f, v * PGSIZE, perm);
    case OpRemove(v) =>
      AddressOf(v);
      m.PageRemove(v * PGSIZE);
  }

  lemma CounterOf(m: Machine, f: FrameNo)
    requires m.Valid() && f in m.space.managed
    ensures f < m.npages && m.ref[f] == RefCount(m.space, f)
  {
    assert m.ref[..][f] == RefCount(m.space, f);
  }

  lemma AddressOf(v: int)
    requires IsVpn(v)
    ensures 0 <= v * PGSIZE < 0x1_0000_0000 && PGNUM(v * PGSIZE) == v
    ensures v < NUSER <==> v * PGSIZE < UTOP
  {
  }

  lemma FreedRep(mem: seq<Frame>, dir: FrameNo, s: Space, tlb: Tlb, f: FrameNo)
    requires MemRep(mem, dir, s) && Inv(s) && Held(s, f) && FrameCoherent(s, dir, tlb)
    ensures MemRep(mem, dir, Release(s, f)) && FrameCoherent(Release(s, f), dir, tlb)
  {
    forall d | d in s.table
      ensures s.table[d] != f
    {
      TableIsCounted(s, d);
    }
    TakeBack(mem, dir, s, f);
    forall v | v in tlb
      ensures Translate(Release(s, f), dir, v) == Translate(s, dir, v)
    {
    }
  }

  /**
   After any legal run, with the processor using its buffer before, between, during and after the calls,
   the counters equal the reference counts, no user page or page table is free, no frame is lost, every
   cached translation names the frame that is in the tables, and none below UTOP names a free frame.
   */
  method PerformAll(m: Machine, ops: seq<Op>)
    requires m.Valid() && Legal(m.space, ops)
    modifies m`head, m`space, m`tlb, m.ref, m.link, m.mem
    ensures m.Valid() && m.space == Run(old(m.space), ops)
    ensures forall f :: f in m.space.managed ==> m.ref[f] == RefCount(m.space, f)
    ensures |m.space.free| + |HeldFrames(m.space)| + |UsedFrames(m.space)| == |old(m.space.managed)|
    ensures FrameCoherent(m.space, m.dir, m.tlb)
    ensures forall v :: v in m.tlb && v < NUSER ==> m.tlb[v].frame !in m.space.free
  {
    RunIsSafe(m.space, ops);
    m.Idle();
    for i := 0 to |ops|
      invariant m.Valid()
      invariant Legal(m.space, ops[i..])
      invariant Run(old(m.space), ops) == Run(m.space, ops[i..])
    {
      assert ops[i..][1..] == ops[i + 1..];
      Perform(m, ops[i]);
      m.Idle();
    }
    UserEntriesCurrent(m.space, m.dir, m.tlb);
  }

  lemma UserEntriesCurrent(s: Space, dir: FrameNo, tlb: Tlb)
    requires Inv(s) && FrameCoherent(s, dir, tlb)
    ensures forall v :: v in tlb && v < NUSER ==> tlb[v].frame !in s.free
  {
    forall v | v in tlb && v < NUSER
      ensures tlb[v].frame !in s.free
    {
      assert v in s.pte;
      NamedIsCounted(s, v);
    }
  }

  // -------------------------------------------------- double frees

  /** The source's test for a legal free looks only at the link and the counter. */
  predicate PassesFreeTest(refs: seq<Count>, links: seq<PagePtr>, f: FrameNo)
    requires f < |refs| && f < |links|
  {
    links[f] == None && refs[f] == 0
  }

  /** Among managed pages the test passes for pages a caller holds, and for one more: the list's last page. */
  lemma FreeTestExactly(refs: seq<Count>, links: seq<PagePtr>, head: PagePtr, s: Space, f: FrameNo)
    requires ListRep(links, head, s) && CountRep(refs, s) && Inv(s) && f in s.managed
    ensures PassesFreeTest(refs, links, f) <==> Held(s, f) || (s.free != [] && f == s.free[|s.free| - 1])
  {
    if f in s.free {
      NullLinkIsTail(links, head, s.free, f);
    }
  }

  /** Freeing the last page twice passes the test and turns the list into a cycle. */
  lemma DoubleFreeOfTail(refs: seq<Count>, links: seq<PagePtr>, head: PagePtr, s: Space, n: nat)
    requires ListRep(links, head, s) && CountRep(refs, s) && Inv(s) && s.free != []
    ensures var tail := s.free[|s.free| - 1];
      && tail in s.managed && PassesFreeTest(refs, links, tail)
      && Follow(links[tail := head], Some(tail), n).Some?
  {
    var tail := s.free[|s.free| - 1];
    assert tail in s.free;
    FreeTestExactly(refs, links, head, s, tail);
    PushedTailNeverEnds(links, head, s.free, tail, n);
  }
}
