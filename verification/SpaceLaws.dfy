/**
 What holds of the simple form in every run: the invariant, the partition of the managed frames,
 the moments at which a frame enters or leaves the free list, and TLB coherence.
 */
module SpaceLaws {
  import opened Base
  import opened Mmu
  import opened AddressSpace

  // -------------------------------------------------- each operation keeps the invariant

  lemma AllocKeepsInv(s: Space)
    requires Inv(s) && s.free != []
    ensures Inv(Alloc(s)) && Held(Alloc(s), s.free[0])
    ensures forall f :: RefCount(Alloc(s), f) == RefCount(s, f)
  {
    assert forall f :: f in s.free[1..] ==> f in s.free;
    assert s.free[0] in s.free;
  }

  lemma ReleaseKeepsInv(s: Space, f: FrameNo)
    requires Inv(s) && Held(s, f)
    ensures Inv(Release(s, f))
    ensures forall g :: RefCount(Release(s, f), g) == RefCount(s, g)
  {
    forall d | d in s.table
      ensures s.table[d] != f
    {
      TableIsCounted(s, d);
    }
  }

  lemma WalkKeepsInv(s: Space, v: int, create: bool)
    requires Inv(s) && IsVpn(v)
    ensures Inv(Walk(s, v, create))
    ensures Walk(s, v, create).managed == s.managed && Walk(s, v, create).pte == s.pte
    ensures create && !NoRoom(s, v) ==> HasTable(Walk(s, v, create), v)
    ensures forall f :: f !in s.free ==> RefCount(Walk(s, v, create), f) == RefCount(s, f)
  {
    var w := Walk(s, v, create);
    if w != s {
      AllocKeepsInv(s);
      SplitVpn(v);
      forall f
        ensures RefCount(w, f) == RefCount(s, f) + (if f == s.free[0] then 1 else 0)
      {
        CountTable(Alloc(s), Dir(v), s.free[0], f);
      }
      assert s.free[0] !in w.free;
    }
  }

  lemma {:induction false} ReclaimKeepsInv(s: Space, q: FrameNo)
    requires Inv(s) && q in s.managed && q !in s.free
    ensures Inv(Reclaim(s, q))
    ensures forall f :: RefCount(Reclaim(s, q), f) == RefCount(s, f)
  {
    if RefCount(s, q) == 0 {
      ReleaseKeepsInv(s, q);
    }
  }

  lemma RemoveKeepsInv(s: Space, v: int)
    requires Inv(s) && 0 <= v < NUSER
    ensures Inv(Remove(s, v))
    ensures forall f :: RefCount(Remove(s, v), f) == RefCount(s, f) - Names(s.pte, v, f)
  {
    if v in s.pte {
      var t := s.(pte := s.pte - {v});
      forall f
        ensures RefCount(t, f) == RefCount(s, f) - Names(s.pte, v, f)
      {
        CountDrop(s, v, f);
      }
      NamedIsCounted(s, v);
      ReclaimKeepsInv(t, s.pte[v].frame);
    }
  }

  lemma PutKeepsInv(s: Space, v: int, p: Pte)
    requires Inv(s) && 0 <= v < NUSER && Dir(v) in s.table
    requires p.frame in s.managed && p.frame !in s.free && p.flags % 2 == 1
    ensures Inv(Put(s, v, p))
    ensures forall f ::
      RefCount(Put(s, v, p), f) == RefCount(s, f) - Names(s.pte, v, f) + (if p.frame == f then 1 else 0)
  {
    var t := s.(pte := s.pte[v := p]);
    forall f
      ensures RefCount(t, f) == RefCount(s, f) - Names(s.pte, v, f) + (if p.frame == f then 1 else 0)
    {
      CountPut(s, v, p, f);
    }
    assert Wf(t);
    if v in s.pte {
      NamedIsCounted(s, v);
      ReclaimKeepsInv(t, s.pte[v].frame);
    }
  }

  /** A page that is not free stays so, and keeps its count, while page v is walked to or vacated. */
  lemma StaysOwned(s: Space, v: int, f: FrameNo)
    requires Inv(s) && 0 <= v < NUSER && f in s.managed && f !in s.free
    ensures f !in Walk(s, v, true).free && RefCount(Walk(s, v, true), f) == RefCount(s, f)
    ensures Names(s.pte, v, f) == 0 ==> f !in Remove(s, v).free && RefCount(Remove(s, v), f) == RefCount(s, f)
  {
    WalkKeepsInv(s, v, true);
    RemoveKeepsInv(s, v);
    assert forall g :: g in Walk(s, v, true).free ==> g in s.free;
  }

  /** Removing the old page first and then writing the new one is one update of the map. */
  lemma RemoveThenPut(s: Space, v: int, p: Pte)
    requires v in s.pte && v < NUSER && s.pte[v].frame != p.frame
    ensures var r := Remove(s, v);
      v !in r.pte && Put(r, v, p) == r.(pte := r.pte[v := p]) == Put(s, v, p)
  {
    var q := s.pte[v].frame;
    CountDrop(s, v, q);
    CountPut(s, v, p, q);
    assert (s.pte - {v})[v := p] == s.pte[v := p];
  }

  lemma NoRoomIsUnmapped(s: Space, v: int)
    requires Inv(s)
    ensures NoRoom(s, v) ==> v !in s.pte
  {
  }

  lemma InsertKeepsInv(s: Space, f: FrameNo, v: int, perm: Flags)
    requires Inv(s) && 0 <= v < NUSER && f in s.managed && f !in s.free
    ensures Inv(Insert(s, f, v, perm))
  {
    if !NoRoom(s, v) {
      WalkKeepsInv(s, v, true);
      PutKeepsInv(Walk(s, v, true), v, Pte(f, WithPresent(perm)));
    }
  }

  // -------------------------------------------------- the operations as one step relation

  datatype Op =
    | OpAlloc(zero: bool)
    | OpFree(f: FrameNo)
    | OpWalk(v: int, create: bool)
    | OpInsert(f: FrameNo, v: int, perm: Flags)
    | OpRemove(v: int)

  /**
   What a caller must respect: free only pages it holds, insert only pages it owns, and not more often
   than the counter can count.
   */
  ghost predicate Enabled(s: Space, op: Op) {
    match op
    case OpAlloc(_) => true
    case OpFree(f) => Held(s, f)
    case OpWalk(v, _) => IsVpn(v)
    case OpInsert(f, v, _) =>
      && 0 <= v < NUSER && f in s.managed && f !in s.free
      && (RefCount(s, f) < 65535 || NoRoom(s, v) || Names(s.pte, v, f) == 1)
    case OpRemove(v) => 0 <= v < NUSER
  }

  ghost function Step(s: Space, op: Op): Space {
    match op
    case OpAlloc(_) => if s.free == [] then s else Alloc(s)
    case OpFree(f) => Release(s, f)
    case OpWalk(v, create) => Walk(s, v, create)
    case OpInsert(f, v, perm) => Insert(s, f, v, perm)
    case OpRemove(v) => Remove(s, v)
  }

  lemma StepKeepsInv(s: Space, op: Op)
    requires Inv(s) && Enabled(s, op)
    ensures Inv(Step(s, op)) && Step(s, op).managed == s.managed
  {
    match op
    case OpAlloc(_) => if s.free != [] { AllocKeepsInv(s); }
    case OpFree(f) => ReleaseKeepsInv(s, f);
    case OpWalk(v, create) => WalkKeepsInv(s, v, create);
    case OpInsert(f, v, perm) => InsertKeepsInv(s, f, v, perm);
    case OpRemove(v) => RemoveKeepsInv(s, v);
  }

  /** The user mapping is a flat map: an insert that finds room updates it, a remove deletes. */
  ghost function FlatStep(m: map<int, Pte>, op: Op, room: bool): map<int, Pte> {
    match op
    case OpInsert(f, v, perm) => if room then m[v := Pte(f, WithPresent(perm))] else m
    case OpRemove(v) => m - {v}
    case _ => m
  }

  lemma StepIsFlat(s: Space, op: Op)
    requires Inv(s) && Enabled(s, op)
    ensures Step(s, op).pte == FlatStep(s.pte, op, op.OpInsert? ==> !NoRoom(s, op.v))
    ensures op.OpInsert? && NoRoom(s, op.v) ==> Step(s, op) == s
  {
    if op.OpRemove? && op.v !in s.pte {
      assert s.pte - {op.v} == s.pte;
    }
  }

  /**
   Creating a table changes no translation, with one exception: the page of the virtual page table
   that shows the new table, which was unmapped, now is mapped to it.
   */
  lemma WalkChangesOneTranslation(s: Space, dir: FrameNo, v: int, u: int)
    requires Inv(s) && IsVpn(v) && IsVpn(u)
    ensures var w := Walk(s, v, true);
      if w != s && u == Vpn(SELF, Dir(v))
      then Translate(s, dir, u) == None && Translate(w, dir, u) == Some(TableEntry(s.free[0]))
      else Translate(w, dir, u) == Translate(s, dir, u)
  {
    SplitVpn(u);
    SplitVpn(v);
  }

  // -------------------------------------------------- when frames become free

  /** An insert moves one reference from the displaced frame to the inserted one. */
  lemma CountAfterInsert(s: Space, op: Op, g: FrameNo)
    requires Inv(s) && Enabled(s, op) && op.OpInsert? && !NoRoom(s, op.v)
    ensures Walk(s, op.v, true).pte == s.pte
    ensures g !in s.free ==>
      RefCount(Step(s, op), g) == RefCount(s, g) - Names(s.pte, op.v, g) + (if op.f == g then 1 else 0)
  {
    WalkKeepsInv(s, op.v, true);
    PutKeepsInv(Walk(s, op.v, true), op.v, Pte(op.f, WithPresent(op.perm)));
  }

  /**
   A frame enters the free list exactly when its holder frees it or its last reference goes; it
   leaves exactly when it is handed out, or put to use as a page table, from the list's head.
   */
  lemma FreeListMoves(s: Space, op: Op, g: FrameNo)
    requires Inv(s) && Enabled(s, op) && g in s.managed
    ensures g !in s.free ==>
      (g in Step(s, op).free <==> op == OpFree(g) || (RefCount(s, g) > 0 && RefCount(Step(s, op), g) == 0))
    ensures g in s.free ==>
      (g !in Step(s, op).free <==> g == s.free[0] && (op.OpAlloc? || RefCount(Step(s, op), g) > 0))
  {
    var s' := Step(s, op);
    StepKeepsInv(s, op);
    match op
    case OpAlloc(_) =>
      if s.free != [] {
        AllocKeepsInv(s);
        assert s.free == [s.free[0]] + s'.free;
      }
    case OpFree(f) => ReleaseKeepsInv(s, f);
    case OpWalk(v, create) => WalkMoves(s, v, create, g);
    case OpInsert(f, v, perm) =>
      if !NoRoom(s, v) {
        var w := Walk(s, v, true);
        WalkKeepsInv(s, v, true);
        WalkMoves(s, v, true, g);
        CountAfterInsert(s, op, g);
        PutKeepsInv(w, v, Pte(f, WithPresent(perm)));
        if v in s.pte {
          NamedIsCounted(w, v);
        }
      }
    case OpRemove(v) =>
      RemoveKeepsInv(s, v);
      if v in s.pte {
        NamedIsCounted(s, v);
      }
  }

  lemma WalkMoves(s: Space, v: int, create: bool, g: FrameNo)
    requires Inv(s) && IsVpn(v)
    ensures var w := Walk(s, v, create);
      && (g !in s.free ==> g !in w.free && RefCount(w, g) == RefCount(s, g))
      && (g in s.free ==> (g !in w.free <==> g == s.free[0] && RefCount(w, g) > 0))
  {
    var w := Walk(s, v, create);
    WalkKeepsInv(s, v, create);
    if w != s {
      assert s.free == [s.free[0]] + w.free;
      TableIsCounted(w, Dir(v));
    }
  }

  // -------------------------------------------------- partition and conservation

  ghost function HeldFrames(s: Space): set<FrameNo> {
    set f | f in s.managed && Held(s, f)
  }

  ghost function UsedFrames(s: Space): set<FrameNo> {
    set f | f in s.managed && InUse(s, f)
  }

  ghost function Elements(q: seq<FrameNo>): set<FrameNo> {
    set f | f in q
  }

  lemma {:induction false} CardinalityOfNoDup(q: seq<FrameNo>)
    requires NoDup(q)
    ensures |Elements(q)| == |q|
  {
    if q == [] {
      assert Elements(q) == {};
    } else {
      CardinalityOfNoDup(q[1..]);
      assert q == [q[0]] + q[1..];
      assert Elements(q) == Elements(q[1..]) + {q[0]};
      assert q[0] !in Elements(q[1..]);
    }
  }

  lemma CardinalityOfUnion<T>(a: set<T>, b: set<T>)
    requires a !! b
    ensures |a + b| == |a| + |b|
  {
  }

  /** Free, held and used frames are disjoint and together are all managed frames. */
  lemma Partition(s: Space)
    requires Inv(s)
    ensures Elements(s.free) !! HeldFrames(s) && Elements(s.free) + HeldFrames(s) !! UsedFrames(s)
    ensures Elements(s.free) + HeldFrames(s) + UsedFrames(s) == s.managed
  {
    assert forall f :: f in s.managed ==> f in s.free || Held(s, f) || InUse(s, f);
  }

  lemma Conservation(s: Space)
    requires Inv(s)
    ensures |s.free| + |HeldFrames(s)| + |UsedFrames(s)| == |s.managed|
  {
    Partition(s);
    CardinalityOfNoDup(s.free);
    CardinalityOfUnion(Elements(s.free), HeldFrames(s));
    CardinalityOfUnion(Elements(s.free) + HeldFrames(s), UsedFrames(s));
  }

  // -------------------------------------------------- runs

  ghost function Run(s: Space, ops: seq<Op>): Space
    decreases |ops|
  {
    if ops == [] then s else Run(Step(s, ops[0]), ops[1..])
  }

  ghost predicate Legal(s: Space, ops: seq<Op>)
    decreases |ops|
  {
    ops == [] || (Enabled(s, ops[0]) && Legal(Step(s, ops[0]), ops[1..]))
  }

  /** In every state a legal run reaches: the invariant, conservation, and no dangling reference. */
  lemma {:induction false} RunIsSafe(s: Space, ops: seq<Op>)
    requires Inv(s) && Legal(s, ops)
    ensures var r := Run(s, ops);
      && Inv(r)
      && r.managed == s.managed
      && |r.free| + |HeldFrames(r)| + |UsedFrames(r)| == |s.managed|
      && (forall v :: v in r.pte && v < NUSER ==> r.pte[v].frame !in r.free)
      && (forall d :: d in r.table ==> r.table[d] !in r.free)
    decreases |ops|
  {
    if ops == [] {
      Conservation(s);
      forall v | v in s.pte && v < NUSER
        ensures s.pte[v].frame !in s.free
      {
        NamedIsCounted(s, v);
      }
    } else {
      StepKeepsInv(s, ops[0]);
      RunIsSafe(Step(s, ops[0]), ops[1..]);
    }
  }

  // -------------------------------------------------- the translation lookaside buffer

  /** What the hardware may have cached for a page: the entry it once found there. */
  type Tlb = map<int, Pte>

  ghost predicate Caches(s: Space, dir: FrameNo, v: int, p: Pte) {
    IsVpn(v) && Translate(s, dir, v) == Some(p)
  }

  /** Every cached entry names the frame that is now in the tables. */
  ghost predicate FrameCoherent(s: Space, dir: FrameNo, tlb: Tlb) {
    forall v :: v in tlb ==>
      IsVpn(v) && Translate(s, dir, v).Some? && Translate(s, dir, v).value.frame == tlb[v].frame
  }

  /** Every cached entry is the entry that is now in the tables, permissions included. */
  ghost predicate FullyCoherent(s: Space, dir: FrameNo, tlb: Tlb) {
    forall v :: v in tlb ==> Caches(s, dir, v, tlb[v])
  }

  lemma DroppingKeepsCoherence(s: Space, dir: FrameNo, tlb: Tlb, dropped: set<int>)
    requires FrameCoherent(s, dir, tlb)
    ensures FrameCoherent(s, dir, tlb - dropped)
  {
  }

  /** The page a step invalidates: a removed page, or one whose frame an insert replaces. */
  function Flushed(s: Space, op: Op): set<int> {
    match op
    case OpRemove(v) => if v in s.pte then {v} else {}
    case OpInsert(f, v, _) => if v in s.pte && s.pte[v].frame != f then {v} else {}
    case _ => {}
  }

  /**
   How the buffer may change while the space s becomes s2: the hardware may drop entries and may cache,
   at any moment, any translation present before or after (only one present after, if flushed).
   */
  ghost predicate MayBecome(s: Space, s2: Space, dir: FrameNo, tlb: Tlb, tlb2: Tlb, flushed: set<int>) {
    forall v :: v in tlb2 ==>
      || Caches(s2, dir, v, tlb2[v])
      || (v !in flushed && v in tlb && tlb2[v] == tlb[v])
      || (v !in flushed && Caches(s, dir, v, tlb2[v]))
  }

  /** The buffer after a step. */
  ghost predicate TlbStep(s: Space, op: Op, dir: FrameNo, tlb: Tlb, tlb': Tlb) {
    MayBecome(s, Step(s, op), dir, tlb, tlb', Flushed(s, op))
  }

  lemma SameIsAllowed(s: Space, s2: Space, dir: FrameNo, tlb: Tlb, flushed: set<int>)
    requires forall v :: v in flushed ==> v !in tlb
    ensures MayBecome(s, s2, dir, tlb, tlb, flushed)
  {
  }

  lemma DroppingIsAllowed(s: Space, s2: Space, dir: FrameNo, tlb: Tlb, tlb2: Tlb, flushed: set<int>, dropped: set<int>)
    requires MayBecome(s, s2, dir, tlb, tlb2, flushed)
    ensures MayBecome(s, s2, dir, tlb, tlb2 - dropped, flushed)
  {
  }

  /** Two changes in a row, when the first leaves nothing to cache that the second would take away. */
  lemma MayBecomeTwice(s: Space, s1: Space, s2: Space, dir: FrameNo, tlb: Tlb, tlb1: Tlb, tlb2: Tlb,
      flushed1: set<int>, flushed2: set<int>)
    requires MayBecome(s, s1, dir, tlb, tlb1, flushed1) && MayBecome(s1, s2, dir, tlb1, tlb2, flushed2)
    requires forall v, p :: Caches(s1, dir, v, p) && v !in flushed2 ==>
      Caches(s2, dir, v, p) || (v !in flushed1 && Caches(s, dir, v, p))
    ensures MayBecome(s, s2, dir, tlb, tlb2, flushed1 + flushed2)
  {
  }

  /** A removal gives the frame back first and clears the entry then. */
  lemma CacheRemoved(s: Space, s1: Space, s2: Space, dir: FrameNo, tlb: Tlb, tlb2: Tlb, v: int)
    requires s1 == s.(free := s1.free) && MayBecome(s1, s2, dir, tlb, tlb2, {v})
    ensures MayBecome(s, s2, dir, tlb, tlb2, {v})
  {
    forall u, p | Caches(s1, dir, u, p)
      ensures Caches(s, dir, u, p)
    {
    }
  }

  /** An entry on an existing table: the page that was there is removed first. */
  lemma CacheMapped(s: Space, s1: Space, s2: Space, dir: FrameNo, tlb: Tlb, tlb1: Tlb, tlb2: Tlb, op: Op)
    requires op.OpInsert? && 0 <= op.v < NUSER && Flushed(s, op) == (if op.v in s.pte then {op.v} else {})
    requires op.v !in s1.pte && s2.pte == s1.pte[op.v := Pte(op.f, WithPresent(op.perm))] && s2.table == s1.table
    requires MayBecome(s, s1, dir, tlb, tlb1, Flushed(s, op)) && MayBecome(s1, s2, dir, tlb1, tlb2, {})
    ensures MayBecome(s, s2, dir, tlb, tlb2, Flushed(s, op))
  {
    forall u, p | Caches(s1, dir, u, p)
      ensures Caches(s2, dir, u, p)
    {
    }
    MayBecomeTwice(s, s1, s2, dir, tlb, tlb1, tlb2, Flushed(s, op), {});
    assert Flushed(s, op) + {} == Flushed(s, op);
  }

  /** An insert walks to the entry first, which may create its table. */
  lemma CacheInserted(s: Space, s1: Space, s2: Space, dir: FrameNo, tlb: Tlb, tlb1: Tlb, tlb2: Tlb, op: Op)
    requires op.OpInsert? && 0 <= op.v < NUSER
    requires s1 == Walk(s, op.v, true) && s2 == Put(s1, op.v, Pte(op.f, WithPresent(op.perm)))
    requires MayBecome(s, s1, dir, tlb, tlb1, {}) && MayBecome(s1, s2, dir, tlb1, tlb2, Flushed(s1, op))
    ensures MayBecome(s, s2, dir, tlb, tlb2, Flushed(s, op))
  {
    forall u, p | Caches(s1, dir, u, p)
      ensures Caches(s2, dir, u, p) || Caches(s, dir, u, p)
    {
    }
    MayBecomeTwice(s, s1, s2, dir, tlb, tlb1, tlb2, {}, Flushed(s, op));
    assert {} + Flushed(s, op) == Flushed(s, op);
  }

  /** A step leaves a present translation's frame alone unless it flushes that page. */
  lemma TranslationStable(s: Space, op: Op, dir: FrameNo, v: int)
    requires Inv(s) && Enabled(s, op) && Translate(s, dir, v).Some? && v !in Flushed(s, op)
    ensures Translate(Step(s, op), dir, v).Some?
    ensures Translate(Step(s, op), dir, v).value.frame == Translate(s, dir, v).value.frame
  {
    match op
    case OpInsert(_, u, _) => WalkKeepsInv(s, u, true);
    case _ =>
  }

  lemma StepKeepsFrameCoherence(s: Space, op: Op, dir: FrameNo, tlb: Tlb, tlb': Tlb)
    requires Inv(s) && Enabled(s, op) && FrameCoherent(s, dir, tlb) && TlbStep(s, op, dir, tlb, tlb')
    ensures FrameCoherent(Step(s, op), dir, tlb')
  {
    forall v | v in tlb' && !Caches(Step(s, op), dir, v, tlb'[v])
      ensures Translate(Step(s, op), dir, v).Some?
      ensures Translate(Step(s, op), dir, v).value.frame == tlb'[v].frame
    {
      TranslationStable(s, op, dir, v);
    }
  }

  /** Over any run and any behaviour of the buffer, no cached entry names a stale or a free frame. */
  lemma {:induction false} RunKeepsFrameCoherence(s: Space, ops: seq<Op>, dir: FrameNo, tlbs: seq<Tlb>)
    requires Inv(s) && Legal(s, ops) && |tlbs| == |ops| + 1 && FrameCoherent(s, dir, tlbs[0])
    requires forall i :: 0 <= i < |ops| ==> TlbStep(Run(s, ops[..i]), ops[i], dir, tlbs[i], tlbs[i + 1])
    ensures FrameCoherent(Run(s, ops), dir, tlbs[|ops|])
    ensures forall v :: v in tlbs[|ops|] && v < NUSER ==> tlbs[|ops|][v].frame !in Run(s, ops).free
    decreases |ops|
  {
    if ops == [] {
      forall v | v in tlbs[0] && v < NUSER
        ensures tlbs[0][v].frame !in s.free
      {
        assert v in s.pte;
        NamedIsCounted(s, v);
      }
    } else {
      var s', rest := Step(s, ops[0]), ops[1..];
      assert Run(s, ops[..0]) == s;
      StepKeepsInv(s, ops[0]);
      StepKeepsFrameCoherence(s, ops[0], dir, tlbs[0], tlbs[1]);
      forall i | 0 <= i < |rest|
        ensures TlbStep(Run(s', rest[..i]), rest[i], dir, tlbs[1..][i], tlbs[1..][i + 1])
      {
        assert ops[..i + 1][1..] == rest[..i];
        assert TlbStep(Run(s, ops[..i + 1]), ops[i + 1], dir, tlbs[i + 1], tlbs[i + 2]);
      }
      RunKeepsFrameCoherence(s', rest, dir, tlbs[1..]);
    }
  }

  /** The step that changes permissions in place while the old entry may still be cached. */
  predicate ChangesCached(s: Space, op: Op, tlb: Tlb) {
    && op.OpInsert?
    && op.v in tlb
    && op.v in s.pte
    && s.pte[op.v].frame == op.f
    && s.pte[op.v].flags != WithPresent(op.perm)
  }

  /**
   Permissions are another matter: re-inserting the same frame with other permissions does not
   invalidate.  That is exactly when a buffer that agreed with the tables stops agreeing.
   */
  lemma PermissionCoherenceExactly(s: Space, op: Op, dir: FrameNo, tlb: Tlb)
    requires Inv(s) && Enabled(s, op) && FullyCoherent(s, dir, tlb)
    ensures FullyCoherent(Step(s, op), dir, tlb - Flushed(s, op)) <==> !ChangesCached(s, op, tlb)
  {
    var s', tlb' := Step(s, op), tlb - Flushed(s, op);
    if op.OpInsert? {
      WalkKeepsInv(s, op.v, true);
    }
    if ChangesCached(s, op, tlb) {
      assert op.v in tlb' && s'.pte[op.v] != tlb'[op.v];
    } else {
      forall v | v in tlb'
        ensures Caches(s', dir, v, tlb'[v])
      {
        assert Caches(s, dir, v, tlb[v]);
        TranslationStable(s, op, dir, v);
      }
    }
  }
}
