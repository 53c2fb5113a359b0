/**
 How the words, counters and links of the machine represent an abstract Space: the free list
 threaded through the page records, and the directory and page tables held in physical frames.
 */
module Representation {
  import opened Base
  import opened Mmu
  import opened AddressSpace
  import opened SpaceLaws

  /** A 16-bit reference counter. */
  type Count = x: int | 0 <= x < 65536

  /** `++` and `--` on a counter wrap around. */
  function Increment(c: Count): Count {
    if c == 65535 then 0 else c + 1
  }

  function Decrement(c: Count): Count {
    if c == 0 then 65535 else c - 1
  }

  /** A pointer to a page record, by page number; NULL is None. */
  type PagePtr = Option<FrameNo>

  /** The contents of one physical frame: 1024 words. */
  type Frame = s: seq<Word> | |s| == 1024 witness seq(1024, _ => 0)

  const ZEROS: Frame := seq(1024, _ => 0)

  /** A pointer to a table entry: a word of some frame. */
  datatype PteRef = PteRef(frame: FrameNo, index: int)

  // -------------------------------------------------- the linked free list

  function Next(s: seq<FrameNo>, i: nat): PagePtr {
    if i < |s| then Some(s[i]) else None
  }

  /** Following the links from `head` visits exactly the pages of s and then ends. */
  ghost predicate ListIs(links: seq<PagePtr>, head: PagePtr, s: seq<FrameNo>) {
    && head == Next(s, 0)
    && (forall i :: 0 <= i < |s| ==> s[i] < |links| && links[s[i]] == Next(s, i + 1))
  }

  lemma ListPop(links: seq<PagePtr>, head: PagePtr, s: seq<FrameNo>)
    requires s != [] && NoDup(s) && ListIs(links, head, s)
    ensures ListIs(links[s[0] := None], links[s[0]], s[1..])
  {
    var rest, links' := s[1..], links[s[0] := None];
    forall i | 0 <= i < |rest|
      ensures rest[i] < |links'| && links'[rest[i]] == Next(rest, i + 1)
    {
      assert rest[i] == s[i + 1] && s[0] != s[i + 1];
    }
  }

  lemma ListPush(links: seq<PagePtr>, head: PagePtr, s: seq<FrameNo>, f: FrameNo)
    requires ListIs(links, head, s) && f !in s && f < |links|
    ensures ListIs(links[f := head], Some(f), [f] + s)
  {
    var longer, links' := [f] + s, links[f := head];
    forall i | 0 <= i < |longer|
      ensures longer[i] < |links'| && links'[longer[i]] == Next(longer, i + 1)
    {
      if i > 0 {
        assert longer[i] == s[i - 1] && s[i - 1] in s;
      }
    }
  }

  /** The links thread the free pages; every other managed page has a NULL link. */
  ghost predicate ListRep(links: seq<PagePtr>, head: PagePtr, s: Space) {
    && FreeOk(s)
    && (forall f :: f in s.managed ==> f < |links|)
    && ListIs(links, head, s.free)
    && (forall f :: f in s.managed && f !in s.free ==> links[f] == None)
  }

  lemma PopRep(links: seq<PagePtr>, head: PagePtr, s: Space)
    requires ListRep(links, head, s) && s.free != []
    ensures ListRep(links[s.free[0] := None], links[s.free[0]], Alloc(s))
  {
    ListPop(links, head, s.free);
    assert s.free == [s.free[0]] + s.free[1..];
  }

  lemma PushRep(links: seq<PagePtr>, head: PagePtr, s: Space, f: FrameNo)
    requires ListRep(links, head, s) && f in s.managed && f !in s.free
    ensures ListRep(links[f := head], Some(f), Release(s, f))
  {
    ListPush(links, head, s.free, f);
  }

  /** The counters count the references. */
  ghost predicate CountRep(refs: seq<Count>, s: Space) {
    forall f :: f in s.managed ==> f < |refs| && refs[f] == RefCount(s, f)
  }

  lemma ListIgnoresTables(links: seq<PagePtr>, head: PagePtr, s: Space, s': Space)
    requires ListRep(links, head, s) && s'.free == s.free && s'.managed == s.managed
    ensures ListRep(links, head, s')
  {
  }

  lemma CountNewTable(refs: seq<Count>, s: Space, v: int)
    requires CountRep(refs, s) && Inv(s) && IsVpn(v) && !HasTable(s, v) && s.free != []
    ensures s.free[0] in s.free
    ensures CountRep(refs[s.free[0] := Increment(refs[s.free[0]])], Walk(s, v, true))
  {
    forall f
      ensures RefCount(Walk(s, v, true), f) == RefCount(s, f) + (if f == s.free[0] then 1 else 0)
    {
      CountTable(Alloc(s), Dir(v), s.free[0], f);
    }
  }

  /** Counting down on a removal keeps the counters right, and never wraps below zero. */
  lemma CountRemoved(refs: seq<Count>, s: Space, v: int)
    requires CountRep(refs, s) && Inv(s) && 0 <= v < NUSER && v in s.pte
    ensures var q := s.pte[v].frame;
      && refs[q] > 0
      && CountRep(refs[q := Decrement(refs[q])], Remove(s, v))
      && (Decrement(refs[q]) == 0 <==> RefCount(s.(pte := s.pte - {v}), q) == 0)
  {
    RemoveKeepsInv(s, v);
    NamedIsCounted(s, v);
    CountDrop(s, v, s.pte[v].frame);
  }

  lemma SameCounter(refs: seq<Count>, s: Space, refs': seq<Count>, s': Space, f: FrameNo)
    requires CountRep(refs, s) && CountRep(refs', s') && f in s.managed && f in s'.managed
    requires RefCount(s, f) == RefCount(s', f)
    ensures f < |refs| && f < |refs'| && refs[f] == refs'[f]
  {
  }

  lemma CountRewritten(refs: seq<Count>, s: Space, v: int, p: Pte)
    requires CountRep(refs, s) && 0 <= v < NUSER && v in s.pte && s.pte[v].frame == p.frame
    ensures CountRep(refs, Put(s, v, p)) && Put(s, v, p) == s.(pte := s.pte[v := p])
  {
    forall f
      ensures RefCount(s.(pte := s.pte[v := p]), f) == RefCount(s, f)
    {
      CountPut(s, v, p, f);
    }
    NamedIsCounted(s, v);
  }

  /** Counting up on a new entry keeps the counters right exactly when the counter does not wrap. */
  lemma CountInserted(refs: seq<Count>, s: Space, v: int, p: Pte)
    requires CountRep(refs, s) && 0 <= v < NUSER && v !in s.pte && p.frame in s.managed
    ensures CountRep(refs[p.frame := Increment(refs[p.frame])], Put(s, v, p)) <==> refs[p.frame] < 65535
  {
    forall f
      ensures RefCount(Put(s, v, p), f) == RefCount(s, f) + (if p.frame == f then 1 else 0)
    {
      CountPut(s, v, p, f);
    }
  }

  /** The pages reached from `head` in n steps. */
  function Follow(links: seq<PagePtr>, head: PagePtr, n: nat): PagePtr
    decreases n
  {
    if n == 0 || head.None? || head.value >= |links| then head
    else Follow(links, links[head.value], n - 1)
  }

  /** A list without repeats ends: it reaches NULL after as many steps as it has pages. */
  lemma {:induction false} ListEnds(links: seq<PagePtr>, head: PagePtr, s: seq<FrameNo>)
    requires ListIs(links, head, s)
    ensures Follow(links, head, |s|) == None
    decreases |s|
  {
    if s != [] {
      var rest := s[1..];
      forall i | 0 <= i < |rest|
        ensures rest[i] < |links| && links[rest[i]] == Next(rest, i + 1)
      {
        assert rest[i] == s[i + 1];
      }
      assert links[s[0]] == Next(s, 1) == Next(rest, 0);
      ListEnds(links, links[s[0]], rest);
    }
  }

  /** A page of the list has a NULL link only if it is the last one. */
  lemma NullLinkIsTail(links: seq<PagePtr>, head: PagePtr, s: seq<FrameNo>, f: FrameNo)
    requires ListIs(links, head, s) && NoDup(s) && f in s
    ensures f < |links| && (links[f] == None <==> f == s[|s| - 1])
  {
    var i :| 0 <= i < |s| && s[i] == f;
    assert links[s[i]] == Next(s, i + 1);
  }

  /** Pushing the last page of a list again closes it into a cycle: it never reaches NULL. */
  lemma {:induction false} PushedTailNeverEnds(
      links: seq<PagePtr>, head: PagePtr, s: seq<FrameNo>, start: FrameNo, n: nat)
    requires ListIs(links, head, s) && s != [] && start in s
    ensures var tail := s[|s| - 1];
      Follow(links[tail := head], Some(start), n).Some? && Follow(links[tail := head], Some(start), n).value in s
    decreases n
  {
    if n > 0 {
      var i :| 0 <= i < |s| && s[i] == start;
      var next := links[s[|s| - 1] := head][start];
      assert next.Some? && next.value in s by {
        if start != s[|s| - 1] {
          assert links[s[i]] == Next(s, i + 1);
        }
      }
      PushedTailNeverEnds(links, head, s, next.value, n - 1);
    }
  }

  // -------------------------------------------------- directory and tables in memory

  /** The word the directory holds in slot i. */
  function DirWord(s: Space, dir: FrameNo, i: int): Word {
    if i == SELF then Encode(Pte(dir, PTE_U + PTE_P))
    else if i in s.table then Encode(TableEntry(s.table[i]))
    else 0
  }

  function EntryWord(s: Space, v: int): Word {
    if v in s.pte then Encode(s.pte[v]) else 0
  }

  ghost predicate EntryMatches(mem: seq<Frame>, s: Space, v: int)
    requires IsVpn(v) && Dir(v) in s.table && s.table[Dir(v)] < |mem|
  {
    mem[s.table[Dir(v)]][Index(v)] == EntryWord(s, v)
  }

  ghost predicate MemRep(mem: seq<Frame>, dir: FrameNo, s: Space) {
    && dir < |mem| && dir !in s.managed
    && (forall f :: f in s.managed ==> f < |mem|)
    && TablesOk(s) && EntriesOk(s)
    && (forall i :: 0 <= i < NPDENTRIES ==> mem[dir][i] == DirWord(s, dir, i))
    && (forall v :: IsVpn(v) && Dir(v) in s.table ==> EntryMatches(mem, s, v))
  }

  /** The frame a walk for page v ends in. */
  function TableOf(s: Space, dir: FrameNo, v: int): FrameNo
    requires HasTable(s, v)
  {
    if Dir(v) == SELF then dir else s.table[Dir(v)]
  }

  /** Writing one entry of an existing table changes the map at that page and nowhere else. */
  lemma WriteEntry(mem: seq<Frame>, dir: FrameNo, s: Space, v: int, s': Space)
    requires MemRep(mem, dir, s) && IsVpn(v) && Dir(v) in s.table
    requires s' == s.(pte := s'.pte) && EntriesOk(s')
    requires forall u :: u != v ==> (u in s'.pte <==> u in s.pte) && (u in s.pte ==> s'.pte[u] == s.pte[u])
    ensures var t := s.table[Dir(v)]; MemRep(mem[t := mem[t][Index(v) := EntryWord(s', v)]], dir, s')
  {
    var t := s.table[Dir(v)];
    var mem' := mem[t := mem[t][Index(v) := EntryWord(s', v)]];
    assert t != dir;
    forall u | IsVpn(u) && Dir(u) in s'.table
      ensures EntryMatches(mem', s', u)
    {
      assert EntryMatches(mem, s, u);
      if u != v && s.table[Dir(u)] == t {
        assert Dir(u) == Dir(v);
        SplitVpn(u);
        SplitVpn(v);
        assert Index(u) != Index(v);
      }
    }
  }

  /** Installing a zeroed frame in an empty slot adds a table and no entry. */
  lemma InstallTable(mem: seq<Frame>, dir: FrameNo, s: Space, i: int, t: FrameNo)
    requires MemRep(mem, dir, s) && 0 <= i < NPDENTRIES && i != SELF && i !in s.table
    requires t in s.managed && t !in s.free && !IsTable(s.table, t) && mem[t] == ZEROS
    ensures MemRep(mem[dir := mem[dir][i := Encode(TableEntry(t))]], dir, s.(table := s.table[i := t]))
  {
    var s' := s.(table := s.table[i := t]);
    var mem' := mem[dir := mem[dir][i := Encode(TableEntry(t))]];
    forall u | IsVpn(u) && Dir(u) in s'.table
      ensures EntryMatches(mem', s', u)
    {
      if Dir(u) == i {
        assert u !in s.pte;
      } else {
        assert EntryMatches(mem, s, u);
      }
    }
  }

  /** Frames that are neither the directory nor a table do not matter to the representation. */
  lemma WriteOther(mem: seq<Frame>, dir: FrameNo, s: Space, f: FrameNo, c: Frame)
    requires MemRep(mem, dir, s) && f < |mem| && f != dir && !IsTable(s.table, f)
    ensures MemRep(mem[f := c], dir, s)
  {
    forall u | IsVpn(u) && Dir(u) in s.table
      ensures EntryMatches(mem[f := c], s, u)
    {
      assert EntryMatches(mem, s, u);
    }
  }

  /** Handing out the first free frame, with whatever contents, leaves the tables as they are. */
  lemma HandOut(mem: seq<Frame>, dir: FrameNo, s: Space, c: Frame)
    requires MemRep(mem, dir, s) && FreeOk(s) && s.free != []
    ensures s.free[0] in s.free
    ensures MemRep(mem, dir, Alloc(s)) && MemRep(mem[s.free[0] := c], dir, Alloc(s))
  {
    var f := s.free[0];
    assert f in s.free && forall g :: g in Alloc(s).free ==> g in s.free;
    assert forall d :: d in s.table ==> s.table[d] != f;
    forall u | IsVpn(u) && Dir(u) in s.table
      ensures EntryMatches(mem, Alloc(s), u)
    {
      assert EntryMatches(mem, s, u);
    }
    assert MemRep(mem, dir, Alloc(s));
    WriteOther(mem, dir, Alloc(s), f, c);
  }

  /** The free list may grow by a frame that is not a table. */
  lemma TakeBack(mem: seq<Frame>, dir: FrameNo, s: Space, f: FrameNo)
    requires MemRep(mem, dir, s) && !IsTable(s.table, f)
    ensures MemRep(mem, dir, Release(s, f))
  {
    forall u | IsVpn(u) && Dir(u) in s.table
      ensures EntryMatches(mem, Release(s, f), u)
    {
      assert EntryMatches(mem, s, u);
    }
  }

  /** Of the space only the maps matter to the tables, as long as what is managed stays in memory. */
  lemma SameMapsMem(mem: seq<Frame>, dir: FrameNo, s: Space, s': Space)
    requires MemRep(mem, dir, s) && s'.table == s.table && s'.pte == s.pte && TablesOk(s') && EntriesOk(s')
    requires dir !in s'.managed && forall f :: f in s'.managed ==> f < |mem|
    ensures MemRep(mem, dir, s')
  {
    forall v | IsVpn(v) && Dir(v) in s'.table
      ensures EntryMatches(mem, s', v)
    {
      assert EntryMatches(mem, s, v);
    }
  }

  /** And only the maps matter to the buffer and to the reference counts. */
  lemma SameMapsCoherent(s: Space, s': Space, dir: FrameNo, tlb: Tlb)
    requires FrameCoherent(s, dir, tlb) && s'.table == s.table && s'.pte == s.pte
    ensures FrameCoherent(s', dir, tlb)
  {
    forall v | v in tlb
      ensures Translate(s', dir, v) == Translate(s, dir, v)
    {
    }
  }

  lemma SameMapsCount(s: Space, s': Space)
    requires s'.table == s.table && s'.pte == s.pte
    ensures forall f :: RefCount(s', f) == RefCount(s, f)
  {
  }

  lemma InMemory(mem: seq<Frame>, dir: FrameNo, s: Space)
    requires MemRep(mem, dir, s)
    ensures dir !in s.managed && (forall f :: f in s.managed ==> f < |mem|) && TablesOk(s) && EntriesOk(s)
  {
  }

  // -------------------------------------------------- whole operations on the representation

  /** Everything but the counters: lists, tables, the invariant of the space, and the buffer. */
  ghost predicate Rep(links: seq<PagePtr>, head: PagePtr, mem: seq<Frame>, dir: FrameNo, s: Space, tlb: Tlb) {
    ListRep(links, head, s) && MemRep(mem, dir, s) && Inv(s) && FrameCoherent(s, dir, tlb)
  }

  /** The counters, links and frame contents at one moment. */
  datatype Snapshot = Snapshot(refs: seq<Count>, links: seq<PagePtr>, mem: seq<Frame>)

  /** Records of unmanaged frames, and frames that are neither tables nor the directory, are the same. */
  ghost predicate Kept(a: Snapshot, b: Snapshot, s: Space, dir: FrameNo) {
    && |a.refs| == |b.refs| && |a.links| == |b.links| && |a.mem| == |b.mem|
    && (forall f: FrameNo :: f < |a.refs| && f !in s.managed ==> b.refs[f] == a.refs[f])
    && (forall f: FrameNo :: f < |a.links| && f !in s.managed ==> b.links[f] == a.links[f])
    && (forall f: FrameNo :: f < |a.mem| && f != dir && !IsTable(s.table, f) ==> b.mem[f] == a.mem[f])
  }

  lemma KeptSame(a: Snapshot, s: Space, dir: FrameNo)
    ensures Kept(a, a, s, dir)
  {
  }

  lemma KeptTransitive(a: Snapshot, b: Snapshot, c: Snapshot, s: Space, s': Space, dir: FrameNo)
    requires Kept(a, b, s, dir) && Kept(b, c, s', dir) && s.managed == s'.managed && s.table == s'.table
    ensures Kept(a, c, s', dir)
  {
  }

  lemma KeptByStore(a: Snapshot, b: Snapshot, s: Space, dir: FrameNo, t: FrameNo, c: Frame)
    requires t < |a.mem| && IsTable(s.table, t) && b == a.(mem := a.mem[t := c])
    ensures Kept(a, b, s, dir)
  {
  }

  lemma KeptByRecord(a: Snapshot, b: Snapshot, s: Space, dir: FrameNo, f: FrameNo)
    requires f < |a.refs| == |b.refs| && f < |a.links| == |b.links| && f in s.managed
    requires b.refs == a.refs[f := b.refs[f]] && b.links == a.links[f := b.links[f]] && b.mem == a.mem
    ensures Kept(a, b, s, dir)
  {
  }

  lemma KeptByNewTable(a: Snapshot, b: Snapshot, s: Space, dir: FrameNo, t: FrameNo, c: Frame, d: Frame)
    requires t < |a.refs| == |b.refs| && t < |a.links| == |b.links| && t < |a.mem| && dir < |a.mem|
    requires t in s.managed && IsTable(s.table, t)
    requires b.refs == a.refs[t := b.refs[t]] && b.links == a.links[t := b.links[t]] && b.mem == a.mem[t := c][dir := d]
    ensures Kept(a, b, s, dir)
  {
  }

  /** Handing out the first free frame, cleared or not; its counter is zero already. */
  lemma RepAlloc(refs: seq<Count>, links: seq<PagePtr>, head: PagePtr, mem: seq<Frame>, dir: FrameNo,
      s: Space, tlb: Tlb)
    requires ListRep(links, head, s) && MemRep(mem, dir, s) && Inv(s) && FrameCoherent(s, dir, tlb) && CountRep(refs, s)
    ensures head == Next(s.free, 0)
    ensures s.free != [] ==>
      var f := s.free[0];
      && f < |refs| && f < |links| && f < |mem| && refs[f] == 0
      && ListRep(links[f := None], links[f], Alloc(s)) && CountRep(refs, Alloc(s))
      && MemRep(mem, dir, Alloc(s)) && MemRep(mem[f := ZEROS], dir, Alloc(s))
      && Inv(Alloc(s)) && FrameCoherent(Alloc(s), dir, tlb)
  {
    if s.free != [] {
      var f := s.free[0];
      assert f in s.free;
      PopRep(links, head, s);
      HandOut(mem, dir, s, ZEROS);
      AllocKeepsInv(s);
      StepKeepsFrameCoherence(s, OpAlloc(false), dir, tlb, tlb);
    }
  }

  /** A walk that creates a table: the first free frame, zeroed, counted once, in the empty slot. */
  lemma RepNewTable(refs: seq<Count>, links: seq<PagePtr>, head: PagePtr, mem: seq<Frame>, dir: FrameNo,
      s: Space, tlb: Tlb, v: int)
    requires Rep(links, head, mem, dir, s, tlb) && CountRep(refs, s)
    requires IsVpn(v) && !HasTable(s, v) && s.free != []
    ensures var t := s.free[0]; var s' := Walk(s, v, true);
      && t in s.free
      && Rep(links[t := None], links[t],
             mem[t := ZEROS][dir := mem[dir][Dir(v) := Encode(TableEntry(t))]], dir, s', tlb)
      && CountRep(refs[t := Increment(refs[t])], s')
      && t in s.managed && t != dir && IsTable(s'.table, t)
  {
    var t := s.free[0];
    assert t in s.free;
    PopRep(links, head, s);
    HandOut(mem, dir, s, ZEROS);
    SplitVpn(v);
    AllocKeepsInv(s);
    InstallTable(mem[t := ZEROS], dir, Alloc(s), Dir(v), t);
    CountNewTable(refs, s, v);
    WalkKeepsInv(s, v, true);
    StepKeepsFrameCoherence(s, OpWalk(v, true), dir, tlb, tlb);
  }

  /** The entry of user page v, as a walk to it finds it. */
  lemma ReadEntry(mem: seq<Frame>, dir: FrameNo, s: Space, v: int)
    requires MemRep(mem, dir, s) && IsVpn(v) && Dir(v) in s.table
    ensures var w := mem[s.table[Dir(v)]][Index(v)];
      && (w == 0 <==> v !in s.pte)
      && (Present(w) <==> v in s.pte)
      && (v in s.pte ==> Decode(w) == s.pte[v] && PTE_ADDR(w) == Page2pa(s.pte[v].frame))
      && s.table[Dir(v)] != dir && s.table[Dir(v)] < |mem|
  {
    assert EntryMatches(mem, s, v);
    if v in s.pte {
      DecodeEncode(s.pte[v]);
    }
  }

  /** What a walk reads in the directory. */
  lemma ReadSlot(mem: seq<Frame>, dir: FrameNo, s: Space, v: int)
    requires MemRep(mem, dir, s) && IsVpn(v)
    ensures Present(mem[dir][Dir(v)]) <==> HasTable(s, v)
    ensures HasTable(s, v) ==> Decode(mem[dir][Dir(v)]).frame == TableOf(s, dir, v) < |mem|
  {
    ReadSelf(mem, dir, s, Dir(v));
  }

  /**
   A removal in the order the source does it: first the counter and, at zero, the free list, while
   the entry is still there.
   */
  lemma RepDropped(refs: seq<Count>, mem: seq<Frame>, dir: FrameNo, s: Space, tlb: Tlb, v: int)
    requires MemRep(mem, dir, s) && CountRep(refs, s) && Inv(s) && FrameCoherent(s, dir, tlb)
    requires 0 <= v < NUSER && v in s.pte
    ensures var q := s.pte[v].frame; var s1 := if Decrement(refs[q]) == 0 then Release(s, q) else s;
      && q in s.managed && q !in s.free && refs[q] > 0
      && CountRep(refs[q := Decrement(refs[q])], Remove(s, v))
      && MemRep(mem, dir, s1) && FrameCoherent(s1, dir, tlb)
      && Remove(s, v) == s1.(pte := s1.pte - {v})
    ensures Dir(v) in s.table && s.table[Dir(v)] < |mem|
  {
    forall u | u in tlb
      ensures Translate(Release(s, s.pte[v].frame), dir, u) == Translate(s, dir, u)
    {
    }
    var q := s.pte[v].frame;
    CountRemoved(refs, s, v);
    NamedIsCounted(s, v);
    if Decrement(refs[q]) == 0 {
      forall d | d in s.table
        ensures s.table[d] != q
      {
        TableIsCounted(s.(pte := s.pte - {v}), d);
      }
      TakeBack(mem, dir, s, q);
    }
  }

  /** Then the entry, and then the buffer. */
  lemma RepCleared(mem: seq<Frame>, dir: FrameNo, s: Space, s': Space, tlb: Tlb, v: int)
    requires MemRep(mem, dir, s) && FrameCoherent(s, dir, tlb)
    requires 0 <= v < NUSER && v in s.pte && s' == s.(pte := s.pte - {v})
    ensures var t := s.table[Dir(v)]; MemRep(mem[t := mem[t][Index(v) := 0]], dir, s') && IsTable(s'.table, t)
    ensures FrameCoherent(s', dir, tlb - {v})
  {
    WriteEntry(mem, dir, s, v, s');
    forall u | u in tlb - {v}
      ensures Translate(s', dir, u) == Translate(s, dir, u)
    {
    }
  }

  /**
   A new entry on an absent page, or other permissions for the frame that is already there: the
   tables follow the map, and nothing the buffer may hold changes its frame.
   */
  lemma RepWritten(mem: seq<Frame>, dir: FrameNo, s: Space, tlb: Tlb, v: int, p: Pte)
    requires MemRep(mem, dir, s) && FrameCoherent(s, dir, tlb)
    requires IsVpn(v) && Dir(v) in s.table && p.flags % 2 == 1 && (v < NUSER ==> p.frame in s.managed)
    requires v in s.pte ==> s.pte[v].frame == p.frame
    ensures var t := s.table[Dir(v)]; var s' := s.(pte := s.pte[v := p]);
      && MemRep(mem[t := mem[t][Index(v) := Encode(p)]], dir, s')
      && IsTable(s.table, t)
      && FrameCoherent(s', dir, tlb)
  {
    var s' := s.(pte := s.pte[v := p]);
    assert EntriesOk(s');
    WriteEntry(mem, dir, s, v, s');
    forall u | u in tlb
      ensures Translate(s', dir, u).Some? && Translate(s', dir, u).value.frame == tlb[u].frame
    {
      assert Translate(s, dir, u).Some?;
    }
  }

  // -------------------------------------------------- address translation

  /** A directory entry read as if it were a table entry. */
  lemma ReadSelf(mem: seq<Frame>, dir: FrameNo, s: Space, i: int)
    requires MemRep(mem, dir, s) && 0 <= i < NPDENTRIES
    ensures var w := mem[dir][i];
      && (Present(w) <==> i == SELF || i in s.table)
      && (i == SELF ==> Decode(w) == Pte(dir, PTE_U + PTE_P))
      && (i in s.table ==> Decode(w) == TableEntry(s.table[i]))
  {
    assert mem[dir][i] == DirWord(s, dir, i);
    DecodeEncode(Pte(dir, PTE_U + PTE_P));
    if i in s.table {
      DecodeEncode(TableEntry(s.table[i]));
    }
  }

  /**
   Page translation as the processor does it (sections 5.2.2 to 5.2.5 of the Intel 80386
   Programmer's Reference Manual): a directory entry, then a table entry, both present.
   */
  function HardwareWalk(mem: seq<Frame>, dir: FrameNo, v: int): (r: Option<Pte>)
    requires IsVpn(v)
  {
    if dir >= |mem| || !Present(mem[dir][Dir(v)]) then None
    else
      var t := Decode(mem[dir][Dir(v)]).frame;
      if t >= |mem| || !Present(mem[t][Index(v)]) then None
      else Some(Decode(mem[t][Index(v)]))
  }

  /** The tables in memory translate every page, the self-map region included, as the flat map says. */
  lemma WalkIsTranslate(mem: seq<Frame>, dir: FrameNo, s: Space, v: int)
    requires MemRep(mem, dir, s) && IsVpn(v)
    ensures HardwareWalk(mem, dir, v) == Translate(s, dir, v)
  {
    SplitVpn(v);
    ReadSlot(mem, dir, s, v);
    if Dir(v) == SELF {
      ReadSelf(mem, dir, s, Index(v));
    } else if Dir(v) in s.table {
      ReadEntry(mem, dir, s, v);
    }
  }

  /**
   The virtual page table: the word at linear address UVPT + 4 * PGNUM(va) is va's own table entry,
   for every va whose table exists.
   */
  lemma SelfMapShowsEntries(mem: seq<Frame>, dir: FrameNo, s: Space, va: Word)
    requires MemRep(mem, dir, s) && HasTable(s, PGNUM(va))
    ensures var at := UVPT + 4 * PGNUM(va);
      && HardwareWalk(mem, dir, PGNUM(at)).Some?
      && HardwareWalk(mem, dir, PGNUM(at)).value.frame == TableOf(s, dir, PGNUM(va))
      && PGOFF(at) == 4 * PTX(va)
  {
    var at := UVPT + 4 * PGNUM(va);
    SplitPageNumber(va);
    SplitVpn(PGNUM(va));
    assert at == PGADDR(SELF, PDX(va), 4 * PTX(va));
    FieldsOf(SELF, PDX(va), 4 * PTX(va));
    WalkIsTranslate(mem, dir, s, PGNUM(at));
  }
}
