/**
 The reordering in check_page_free_list: the linked free list is split in place, through two tail
 cells, so that the pages of low memory come first.
 */
module FreeListOrder {
  import opened Base
  import opened Mmu
  import opened AddressSpace
  import opened SpaceLaws
  import opened Representation
  import opened PageManager

  /** The class of a page: does its directory index reach the limit? */
  predicate IsHigh(f: FrameNo, limit: nat) {
    PDX(Page2pa(f)) >= limit
  }

  /** In addresses: a directory slot covers 4MB. */
  lemma HighExactly(f: FrameNo, limit: nat)
    ensures IsHigh(f, limit) <==> f * 4096 >= limit * 0x40_0000
  {
  }

  /** The pages of one class, in order. */
  function Pick(s: seq<FrameNo>, limit: nat, high: bool): seq<FrameNo> {
    if s == [] then []
    else
      var front, last := s[..|s| - 1], s[|s| - 1];
      Pick(front, limit, high) + (if IsHigh(last, limit) == high then [last] else [])
  }

  /** Low pages first, high pages after them, each class in its old order. */
  function LowFirst(s: seq<FrameNo>, limit: nat): seq<FrameNo> {
    Pick(s, limit, false) + Pick(s, limit, true)
  }

  lemma {:induction false} PickMembers(s: seq<FrameNo>, limit: nat, high: bool, f: FrameNo)
    ensures f in Pick(s, limit, high) <==> f in s && IsHigh(f, limit) == high
  {
    if s != [] {
      var front := s[..|s| - 1];
      PickMembers(front, limit, high, f);
      assert s == front + [s[|s| - 1]];
    }
  }

  lemma {:induction false} PickHasNoDup(s: seq<FrameNo>, limit: nat, high: bool)
    requires NoDup(s)
    ensures NoDup(Pick(s, limit, high))
  {
    if s != [] {
      var front := s[..|s| - 1];
      PickHasNoDup(front, limit, high);
      PickMembers(front, limit, high, s[|s| - 1]);
    }
  }

  /** The reordered list is a permutation of the old one. */
  lemma {:induction false} LowFirstPermutes(s: seq<FrameNo>, limit: nat)
    ensures multiset(LowFirst(s, limit)) == multiset(s)
  {
    if s != [] {
      var front := s[..|s| - 1];
      LowFirstPermutes(front, limit);
      assert s == front + [s[|s| - 1]];
    }
  }

  /** All low pages precede all high ones. */
  lemma LowPrecedesHigh(s: seq<FrameNo>, limit: nat, i: nat)
    requires i < |LowFirst(s, limit)|
    ensures IsHigh(LowFirst(s, limit)[i], limit) <==> i >= |Pick(s, limit, false)|
  {
    var low, high := Pick(s, limit, false), Pick(s, limit, true);
    if i < |low| {
      PickMembers(s, limit, false, low[i]);
    } else {
      PickMembers(s, limit, true, high[i - |low|]);
    }
  }

  lemma {:induction false} PickPrefix(s: seq<FrameNo>, limit: nat, high: bool, k: nat)
    requires k <= |s|
    ensures Pick(s[..k], limit, high) <= Pick(s, limit, high)
    decreases |s|
  {
    if k < |s| {
      var front := s[..|s| - 1];
      assert front[..k] == s[..k];
      PickPrefix(front, limit, high, k);
    } else {
      assert s[..k] == s;
    }
  }

  /** Where page k of the old list goes: behind the pages of its class that were before it. */
  function Place(s: seq<FrameNo>, limit: nat, k: nat): nat
    requires k < |s|
  {
    var high := IsHigh(s[k], limit);
    |Pick(s[..k], limit, high)| + if high then |Pick(s, limit, false)| else 0
  }

  lemma PlaceHolds(s: seq<FrameNo>, limit: nat, k: nat)
    requires k < |s|
    ensures Place(s, limit, k) < |LowFirst(s, limit)| && LowFirst(s, limit)[Place(s, limit, k)] == s[k]
    ensures Place(s, limit, k) < |Pick(s, limit, false)| <==> !IsHigh(s[k], limit)
  {
    var high := IsHigh(s[k], limit);
    assert s[..k + 1][..k] == s[..k];
    assert Pick(s[..k + 1], limit, high) == Pick(s[..k], limit, high) + [s[k]];
    PickPrefix(s, limit, high, k + 1);
  }

  /** The partition is stable: two pages change places exactly when the first is high and the second low. */
  lemma LowFirstIsStable(s: seq<FrameNo>, limit: nat, i: nat, j: nat)
    requires i < j < |s|
    ensures Place(s, limit, i) < |LowFirst(s, limit)| && LowFirst(s, limit)[Place(s, limit, i)] == s[i]
    ensures Place(s, limit, j) < |LowFirst(s, limit)| && LowFirst(s, limit)[Place(s, limit, j)] == s[j]
    ensures Place(s, limit, j) <= Place(s, limit, i) <==> IsHigh(s[i], limit) && !IsHigh(s[j], limit)
  {
    PlaceHolds(s, limit, i);
    PlaceHolds(s, limit, j);
    var high := IsHigh(s[i], limit);
    assert s[..i + 1][..i] == s[..i] && s[..j][..i + 1] == s[..i + 1];
    assert Pick(s[..i + 1], limit, high) == Pick(s[..i], limit, high) + [s[i]];
    PickPrefix(s[..j], limit, high, i + 1);
  }

  // -------------------------------------------------- chains that end in a tail cell

  /** Where the next page will be stored: in the local head variable, or in the link of a page. */
  datatype Cell = Local | LinkOf(f: FrameNo)

  /** A chain of pages s that starts at h and whose last link is still to be written, through t. */
  ghost predicate Open(links: seq<PagePtr>, h: PagePtr, t: Cell, s: seq<FrameNo>) {
    && (forall i :: 0 <= i < |s| ==> s[i] < |links|)
    && (forall i :: 0 <= i < |s| - 1 ==> links[s[i]] == Some(s[i + 1]))
    && (if s == [] then t == Local else h == Some(s[0]) && t == LinkOf(s[|s| - 1]))
  }

  /** What storing p through the cell does to the links and to the local variable. */
  function StoreLink(links: seq<PagePtr>, t: Cell, p: PagePtr): seq<PagePtr>
    requires t.LinkOf? ==> t.f < |links|
  {
    if t.Local? then links else links[t.f := p]
  }

  function StoreHead(h: PagePtr, t: Cell, p: PagePtr): PagePtr {
    if t.Local? then p else h
  }

  lemma OpenAppend(links: seq<PagePtr>, h: PagePtr, t: Cell, s: seq<FrameNo>, f: FrameNo)
    requires Open(links, h, t, s) && NoDup(s) && f < |links|
    ensures Open(StoreLink(links, t, Some(f)), StoreHead(h, t, Some(f)), LinkOf(f), s + [f])
  {
  }

  lemma OpenKeep(links: seq<PagePtr>, h: PagePtr, t: Cell, s: seq<FrameNo>, other: Cell, p: PagePtr)
    requires Open(links, h, t, s) && (other.LinkOf? ==> other.f < |links| && other.f !in s)
    ensures Open(StoreLink(links, other, p), h, t, s)
  {
    assert forall i :: 0 <= i < |s| ==> s[i] in s;
  }

  /** Closing a chain with the head of a complete list appends that list. */
  lemma LastDiffers(s: seq<FrameNo>, rest: seq<FrameNo>)
    requires NoDup(s + rest) && s != []
    ensures forall i :: 0 <= i < |s| - 1 ==> s[i] != s[|s| - 1]
    ensures forall i :: 0 <= i < |rest| ==> rest[i] != s[|s| - 1]
  {
    var all, last := s + rest, |s| - 1;
    forall i | 0 <= i < |rest|
      ensures rest[i] != s[last]
    {
      assert all[|s| + i] != all[last];
    }
    forall i | 0 <= i < last
      ensures s[i] != s[last]
    {
      assert all[i] != all[last];
    }
  }

  lemma OpenClose(links: seq<PagePtr>, h: PagePtr, t: Cell, s: seq<FrameNo>, rest: seq<FrameNo>, p: PagePtr)
    requires Open(links, h, t, s) && ListIs(links, p, rest) && NoDup(s + rest)
    ensures ListIs(StoreLink(links, t, p), StoreHead(h, t, p), s + rest)
  {
    if s == [] {
      assert s + rest == rest;
    } else {
      hide NoDup;
      LastDiffers(s, rest);
      var all, links' := s + rest, links[t.f := p];
      forall i | 0 <= i < |all|
        ensures all[i] < |links'| && links'[all[i]] == Next(all, i + 1)
      {
        assert i < |s| ==> all[i] == s[i];
        assert i >= |s| ==> all[i] == rest[i - |s|];
      }
    }
  }

  // -------------------------------------------------- the loop

  /** After k pages of s: two open chains, and the rest of the list as it was. */
  ghost predicate Split(links: seq<PagePtr>, s: seq<FrameNo>, limit: nat, k: nat,
      h0: PagePtr, t0: Cell, h1: PagePtr, t1: Cell) {
    && k <= |s|
    && Open(links, h0, t0, Pick(s[..k], limit, false))
    && Open(links, h1, t1, Pick(s[..k], limit, true))
    && Rest(links, s, k)
  }

  /** A cell points into its own chain, and into no other. */
  lemma CellInChain(links: seq<PagePtr>, h: PagePtr, t: Cell, s: seq<FrameNo>, limit: nat, high: bool)
    requires Open(links, h, t, Pick(s, limit, high)) && t.LinkOf?
    ensures t.f < |links| && t.f in s && t.f !in Pick(s, limit, !high)
  {
    var chain := Pick(s, limit, high);
    PickMembers(s, limit, high, chain[|chain| - 1]);
    PickMembers(s, limit, !high, chain[|chain| - 1]);
  }

  lemma PickNext(s: seq<FrameNo>, limit: nat, k: nat)
    requires k < |s|
    ensures Pick(s[..k + 1], limit, IsHigh(s[k], limit)) == Pick(s[..k], limit, IsHigh(s[k], limit)) + [s[k]]
    ensures Pick(s[..k + 1], limit, !IsHigh(s[k], limit)) == Pick(s[..k], limit, !IsHigh(s[k], limit))
  {
    assert s[..k + 1][..k] == s[..k];
  }

  /** The links of the pages from k on are still those of the old list. */
  ghost predicate Rest(links: seq<PagePtr>, s: seq<FrameNo>, k: nat) {
    forall j :: k <= j < |s| ==> s[j] < |links| && links[s[j]] == Next(s, j + 1)
  }

  lemma RestStep(links: seq<PagePtr>, s: seq<FrameNo>, k: nat, t: Cell)
    requires NoDup(s) && Rest(links, s, k) && k < |s| && (t.LinkOf? ==> t.f in s[..k] && t.f < |links|)
    ensures s[k] < |links| && (t.LinkOf? ==> t.f in s && t.f != s[k])
    ensures Rest(StoreLink(links, t, Some(s[k])), s, k + 1)
  {
  }

  lemma SplitLow(links: seq<PagePtr>, s: seq<FrameNo>, limit: nat, k: nat,
      h0: PagePtr, t0: Cell, h1: PagePtr, t1: Cell)
    requires NoDup(s) && Split(links, s, limit, k, h0, t0, h1, t1) && k < |s| && !IsHigh(s[k], limit)
    ensures s[k] < |links| && (t0.LinkOf? ==> t0.f < |links| && t0.f in s && t0.f != s[k])
    ensures Split(StoreLink(links, t0, Some(s[k])), s, limit, k + 1, StoreHead(h0, t0, Some(s[k])), LinkOf(s[k]), h1, t1)
  {
    hide Pick, Open, Rest, StoreLink, StoreHead, IsHigh;
    PickNext(s, limit, k);
    PickHasNoDup(s[..k], limit, false);
    if t0.LinkOf? {
      CellInChain(links, h0, t0, s[..k], limit, false);
    }
    RestStep(links, s, k, t0);
    OpenKeep(links, h1, t1, Pick(s[..k], limit, true), t0, Some(s[k]));
    OpenAppend(links, h0, t0, Pick(s[..k], limit, false), s[k]);
  }

  lemma SplitHigh(links: seq<PagePtr>, s: seq<FrameNo>, limit: nat, k: nat,
      h0: PagePtr, t0: Cell, h1: PagePtr, t1: Cell)
    requires NoDup(s) && Split(links, s, limit, k, h0, t0, h1, t1) && k < |s| && IsHigh(s[k], limit)
    ensures s[k] < |links| && (t1.LinkOf? ==> t1.f < |links| && t1.f in s && t1.f != s[k])
    ensures Split(StoreLink(links, t1, Some(s[k])), s, limit, k + 1, h0, t0, StoreHead(h1, t1, Some(s[k])), LinkOf(s[k]))
  {
    hide Pick, Open, Rest, StoreLink, StoreHead, IsHigh;
    PickNext(s, limit, k);
    PickHasNoDup(s[..k], limit, true);
    if t1.LinkOf? {
      CellInChain(links, h1, t1, s[..k], limit, true);
    }
    RestStep(links, s, k, t1);
    OpenKeep(links, h0, t0, Pick(s[..k], limit, false), t1, Some(s[k]));
    OpenAppend(links, h1, t1, Pick(s[..k], limit, true), s[k]);
  }

  lemma SplitDone(links: seq<PagePtr>, s: seq<FrameNo>, limit: nat, h0: PagePtr, t0: Cell, h1: PagePtr, t1: Cell)
    requires NoDup(s) && Split(links, s, limit, |s|, h0, t0, h1, t1)
    ensures t0.LinkOf? ==> t0.f < |links| && t0.f in s
    ensures t1.LinkOf? ==> t1.f < |links| && t1.f in s
    ensures NoDup(LowFirst(s, limit))
    ensures var links1, p := StoreLink(links, t1, None), StoreHead(h1, t1, None);
      ListIs(StoreLink(links1, t0, p), StoreHead(h0, t0, p), LowFirst(s, limit))
  {
    hide NoDup, Pick, StoreLink, StoreHead, Open, ListIs;
    assert s[..|s|] == s;
    var low, high := Pick(s, limit, false), Pick(s, limit, true);
    ClassesDiffer(s, limit);
    if t0.LinkOf? {
      CellInChain(links, h0, t0, s, limit, false);
    }
    NullIsEmpty(links);
    assert high + [] == high;
    OpenClose(links, h1, t1, high, [], None);
    if t1.LinkOf? {
      CellInChain(links, h1, t1, s, limit, true);
    }
    OpenKeep(links, h0, t0, low, t1, None);
    LinkStored(links, t1, None);
    OpenClose(StoreLink(links, t1, None), h0, t0, low, high, StoreHead(h1, t1, None));
  }

  lemma NullIsEmpty(links: seq<PagePtr>)
    ensures ListIs(links, None, [])
  {
  }

  lemma LinkStored(links: seq<PagePtr>, t: Cell, p: PagePtr)
    requires t.LinkOf? ==> t.f < |links|
    ensures |StoreLink(links, t, p)| == |links|
  {
  }

  lemma ClassesDiffer(s: seq<FrameNo>, limit: nat)
    requires NoDup(s)
    ensures NoDup(Pick(s, limit, true)) && NoDup(Pick(s, limit, false) + Pick(s, limit, true))
  {
    hide Pick;
    var low, high := Pick(s, limit, false), Pick(s, limit, true);
    PickHasNoDup(s, limit, false);
    PickHasNoDup(s, limit, true);
    forall i, j | 0 <= i < |low| && 0 <= j < |high|
      ensures low[i] != high[j]
    {
      PickMembers(s, limit, false, low[i]);
      PickMembers(s, limit, true, high[j]);
    }
  }

  // -------------------------------------------------- the method

  /** Reordering the free list changes neither its members nor anything else. */
  lemma ReorderKeepsInv(s: Space, s': Space, limit: nat)
    requires Inv(s) && s' == s.(free := LowFirst(s.free, limit)) && NoDup(s'.free)
    ensures forall f :: f in s'.free <==> f in s.free
    ensures Inv(s')
  {
    forall f
      ensures f in s'.free <==> f in s.free
    {
      PickMembers(s.free, limit, false, f);
      PickMembers(s.free, limit, true, f);
    }
    assert forall f :: RefCount(s', f) == RefCount(s, f);
  }

  lemma ReorderedRep(refs: seq<Count>, before: seq<PagePtr>, links: seq<PagePtr>, head0: PagePtr, head: PagePtr,
      mem: seq<Frame>, dir: FrameNo, s: Space, s': Space, tlb: Tlb, limit: nat)
    requires Rep(before, head0, mem, dir, s, tlb) && CountRep(refs, s)
    requires s' == s.(free := LowFirst(s.free, limit)) && NoDup(s'.free) && ListIs(links, head, s'.free)
    requires SameElsewhere(before, links, s.free)
    ensures Rep(links, head, mem, dir, s', tlb) && CountRep(refs, s')
  {
    hide MemRep, FrameCoherent, LowFirst;
    ReorderKeepsInv(s, s', limit);
    MemIgnoresFree(mem, dir, s, s');
    SameMapsCoherent(s, s', dir, tlb);
    forall f | f in s.managed
      ensures RefCount(s', f) == RefCount(s, f)
    {
    }
  }

  lemma MemIgnoresFree(mem: seq<Frame>, dir: FrameNo, s: Space, s': Space)
    requires MemRep(mem, dir, s) && s' == s.(free := s'.free) && forall f :: f in s'.free ==> f in s.free
    ensures MemRep(mem, dir, s')
  {
    InMemory(mem, dir, s);
    SameMapsMem(mem, dir, s, s');
  }

  /** Stores p through the cell t: into the local head, or into a page's link. */
  method Store(m: Machine, h: PagePtr, t: Cell, p: PagePtr) returns (h': PagePtr)
    requires m.Shape() && (t.LinkOf? ==> t.f < m.npages)
    modifies m.link
    ensures m.link[..] == StoreLink(old(m.link[..]), t, p) && h' == StoreHead(h, t, p)
  {
    if t.Local? {
      return p;
    }
    m.link[t.f] := p;
    return h;
  }

  /** Only links of pages on the list s differ. */
  ghost predicate SameElsewhere(before: seq<PagePtr>, links: seq<PagePtr>, s: seq<FrameNo>) {
    |links| == |before| && forall f: FrameNo :: f < |links| && f !in s ==> links[f] == before[f]
  }

  lemma StoreElsewhere(before: seq<PagePtr>, links: seq<PagePtr>, s: seq<FrameNo>, t: Cell, p: PagePtr)
    requires SameElsewhere(before, links, s) && (t.LinkOf? ==> t.f < |links| && t.f in s)
    ensures SameElsewhere(before, StoreLink(links, t, p), s)
  {
  }

  /** The loop: deals the pages of the list out to two chains. */
  method SplitList(m: Machine, limit: nat, ghost s: seq<FrameNo>)
    returns (pp1: PagePtr, tp0: Cell, pp2: PagePtr, tp1: Cell)
    requires m.Shape() && NoDup(s) && m.head == Next(s, 0)
    requires Split(m.link[..], s, limit, 0, None, Local, None, Local)
    modifies m.link
    ensures Split(m.link[..], s, limit, |s|, pp1, tp0, pp2, tp1)
    ensures SameElsewhere(old(m.link[..]), m.link[..], s)
  {
    hide Split, NoDup, SameElsewhere, StoreLink, StoreHead;
    pp1, pp2, tp0, tp1 := None, None, Local, Local;
    var pp := m.head;
    ghost var k := 0;
    ghost var before := m.link[..];
    SameAtStart(before, s);
    while pp.Some?
      invariant k <= |s| && pp == Next(s, k)
      invariant Split(m.link[..], s, limit, k, pp1, tp0, pp2, tp1)
      invariant SameElsewhere(before, m.link[..], s)
      decreases |s| - k
    {
      var f := pp.value;
      if PDX(Page2pa(f)) >= limit {
        SplitHigh(m.link[..], s, limit, k, pp1, tp0, pp2, tp1);
        StoreElsewhere(before, m.link[..], s, tp1, pp);
        SplitNext(m.link[..], s, limit, k, pp1, tp0, pp2, tp1, tp1);
        pp2 := Store(m, pp2, tp1, pp);
        tp1 := LinkOf(f);
      } else {
        SplitLow(m.link[..], s, limit, k, pp1, tp0, pp2, tp1);
        StoreElsewhere(before, m.link[..], s, tp0, pp);
        SplitNext(m.link[..], s, limit, k, pp1, tp0, pp2, tp1, tp0);
        pp1 := Store(m, pp1, tp0, pp);
        tp0 := LinkOf(f);
      }
      pp := m.link[f];
      k := k + 1;
    }
  }

  lemma SameAtStart(links: seq<PagePtr>, s: seq<FrameNo>)
    ensures SameElsewhere(links, links, s)
  {
  }

  /** The page the loop is at: its own link is not written in this turn. */
  lemma SplitNext(links: seq<PagePtr>, s: seq<FrameNo>, limit: nat, k: nat,
      h0: PagePtr, t0: Cell, h1: PagePtr, t1: Cell, t: Cell)
    requires Split(links, s, limit, k, h0, t0, h1, t1) && k < |s| && (t.LinkOf? ==> t.f != s[k] && t.f < |links|)
    ensures s[k] < |links| && StoreLink(links, t, Some(s[k]))[s[k]] == Next(s, k + 1)
  {
  }

  /** Moves the pages of low memory to the front of the free list; `limit` is the first high directory index. */
  method MoveLowFirst(m: Machine, limit: nat)
    requires m.Valid()
    modifies m`head, m`space, m.link
    ensures m.Valid()
    ensures m.space == old(m.space).(free := LowFirst(old(m.space.free), limit))
  {
    hide Split, Rep, CountRep, SameElsewhere, LowFirst, NoDup, StoreLink, StoreHead, ListIs;
    ghost var s := m.space;
    SplitBegins(m, limit);
    var pp1, tp0, pp2, tp1 := SplitList(m, limit, s.free);
    SplitDone(m.link[..], s.free, limit, pp1, tp0, pp2, tp1);
    StoreElsewhere(old(m.link[..]), m.link[..], s.free, tp1, None);
    pp2 := Store(m, pp2, tp1, None);
    StoreElsewhere(old(m.link[..]), m.link[..], s.free, tp0, pp2);
    pp1 := Store(m, pp1, tp0, pp2);
    m.head := pp1;
    m.space := m.space.(free := LowFirst(s.free, limit));
    ReorderedRep(m.ref[..], old(m.link[..]), m.link[..], old(m.head), m.head, m.mem[..], m.dir, s, m.space, m.tlb, limit);
    RepIsValid(m);
  }

  lemma RepIsValid(m: Machine)
    requires m.Shape() && m.dir < m.npages && Rep(m.link[..], m.head, m.mem[..], m.dir, m.space, m.tlb)
    requires CountRep(m.ref[..], m.space) && (m.loaded || m.tlb == map[])
    ensures m.Valid()
  {
  }

  lemma SplitBegins(m: Machine, limit: nat)
    requires m.Valid()
    ensures m.dir < m.npages && NoDup(m.space.free) && m.head == Next(m.space.free, 0)
    ensures Split(m.link[..], m.space.free, limit, 0, None, Local, None, Local)
    ensures Rep(m.link[..], m.head, m.mem[..], m.dir, m.space, m.tlb) && CountRep(m.ref[..], m.space)
    ensures m.loaded || m.tlb == map[]
  {
    SplitStart(m.link[..], m.head, m.space.free, limit);
  }

  lemma SplitStart(links: seq<PagePtr>, head: PagePtr, s: seq<FrameNo>, limit: nat)
    requires ListIs(links, head, s)
    ensures Split(links, s, limit, 0, None, Local, None, Local)
  {
  }
}
