/** The kernel's self tests of the page allocator: the free list, and allocating and freeing. */
module CheckAlloc {
  import opened Base
  import opened Mmu
  import opened AddressSpace
  import opened SpaceLaws
  import opened Representation
  import opened PageManager
  import opened FreeListOrder
  import opened CheckPage
  import PageInit

  // -------------------------------------------------- check_page_free_list

  /** A page that may be free: not one of the reserved pages, and not below the next free address. */
  predicate MayBeFree(f: FrameNo, firstFree: nat) {
    f != 0 && f != PageInit.IO_PAGE && f != PageInit.EXT_PAGE - 1 && f != PageInit.EXT_PAGE &&
    (f < PageInit.EXT_PAGE || firstFree <= f * 4096)
  }

  ghost predicate AllMayBeFree(s: seq<FrameNo>, firstFree: nat) {
    forall i :: 0 <= i < |s| ==> MayBeFree(s[i], firstFree)
  }

  /** A page of base memory, if `base`, or else of extended memory. */
  predicate IsKind(f: FrameNo, base: bool) {
    (f < PageInit.EXT_PAGE) == base
  }

  function CountKind(s: seq<FrameNo>, base: bool): nat {
    if s == [] then 0 else CountKind(s[..|s| - 1], base) + if IsKind(s[|s| - 1], base) then 1 else 0
  }

  ghost predicate HasKind(s: seq<FrameNo>, base: bool) {
    exists i :: 0 <= i < |s| && IsKind(s[i], base)
  }

  lemma {:induction false} CountKindPositive(s: seq<FrameNo>, base: bool)
    ensures CountKind(s, base) > 0 <==> HasKind(s, base)
  {
    if s != [] {
      var front := s[..|s| - 1];
      CountKindPositive(front, base);
      assert IsKind(s[|s| - 1], base) ==> HasKind(s, base);
      if HasKind(front, base) {
        var i :| 0 <= i < |front| && IsKind(front[i], base);
        assert IsKind(s[i], base);
      }
      if HasKind(s, base) {
        var i :| 0 <= i < |s| && IsKind(s[i], base);
        assert i < |front| ==> IsKind(front[i], base);
      }
    }
  }

  /** The list passes: all its pages may be free, and there are some of base and some of extended memory. */
  ghost predicate FreeListPasses(s: seq<FrameNo>, firstFree: nat) {
    AllMayBeFree(s, firstFree) && HasKind(s, true) && HasKind(s, false)
  }

  /** In addresses: the pages at 0, 0xA0000, 0xFF000 and 0x100000 are not free, and nothing in use is. */
  lemma FreeListPassesExactly(s: seq<FrameNo>, firstFree: nat)
    ensures FreeListPasses(s, firstFree) <==>
      && 0 !in s && 0xA0 !in s && 0xFF !in s && 0x100 !in s
      && (forall f :: f in s && f * 4096 >= 0x10_0000 ==> f * 4096 >= firstFree)
      && (exists f :: f in s && f * 4096 < 0x10_0000) && (exists f :: f in s && f * 4096 >= 0x10_0000)
  {
    KindExists(s, true);
    KindExists(s, false);
    AllAreFree(s, firstFree);
    hide HasKind, AllMayBeFree;
    if exists f :: f in s && f * 4096 < 0x10_0000 {
      var f: FrameNo :| f in s && f < 256;
      assert IsKind(f, true);
    }
    if exists f :: f in s && f * 4096 >= 0x10_0000 {
      var f: FrameNo :| f in s && f >= 256;
      assert IsKind(f, false);
    }
    assert AllMayBeFree(s, firstFree) <==>
      && 0 !in s && 0xA0 !in s && 0xFF !in s && 0x100 !in s
      && (forall f :: f in s && f * 4096 >= 0x10_0000 ==> f * 4096 >= firstFree);
  }

  lemma KindExists(s: seq<FrameNo>, base: bool)
    ensures HasKind(s, base) <==> exists f :: f in s && IsKind(f, base)
  {
    if HasKind(s, base) {
      var i :| 0 <= i < |s| && IsKind(s[i], base);
      assert s[i] in s;
    }
    if exists f :: f in s && IsKind(f, base) {
      var f :| f in s && IsKind(f, base);
      var i :| 0 <= i < |s| && s[i] == f;
      assert IsKind(s[i], base);
    }
  }

  lemma AllAreFree(s: seq<FrameNo>, firstFree: nat)
    ensures AllMayBeFree(s, firstFree) <==> forall f :: f in s ==> MayBeFree(f, firstFree)
  {
    if AllMayBeFree(s, firstFree) {
      forall f | f in s
        ensures MayBeFree(f, firstFree)
      {
        var i :| 0 <= i < |s| && s[i] == f;
      }
    } else {
      var i :| 0 <= i < |s| && !MayBeFree(s[i], firstFree);
      assert s[i] in s;
    }
  }

  const POISON: Word := 0x9797_9797

  /** Spoils the first 128 bytes. */
  function Poisoned(c: Frame): Frame {
    seq(1024, i requires 0 <= i < 1024 => if i < 32 then POISON else c[i])
  }

  lemma FreeIsNoTable(s: Space, f: FrameNo)
    requires Inv(s) && f in s.free
    ensures f in s.managed && !IsTable(s.table, f)
  {
    forall d | d in s.table
      ensures s.table[d] != f
    {
      TableIsCounted(s, d);
    }
  }

  /** Spoils one free page. */
  method PoisonPage(m: Machine, f: FrameNo)
    requires m.Valid() && f in m.space.free
    modifies m.mem
    ensures m.Valid()
  {
    hide ListRep, CountRep, Inv, FrameCoherent;
    FreeIsNoTable(m.space, f);
    InMachine(m, f);
    WriteOther(m.mem[..], m.dir, m.space, f, Poisoned(m.mem[f]));
    ghost var mem := m.mem[..];
    m.mem[f] := Poisoned(m.mem[f]);
    assert m.mem[..] == mem[f := m.mem[f]];
  }

  lemma OnList(m: Machine, k: nat)
    requires m.Valid() && k < |m.space.free|
    ensures m.space.free[k] in m.space.free && m.space.free[k] < m.npages
    ensures m.link.Length == m.npages && m.link[m.space.free[k]] == Next(m.space.free, k + 1)
  {
    assert m.link[..][m.space.free[k]] == Next(m.space.free, k + 1);
  }

  lemma HeadOf(m: Machine)
    requires m.Valid()
    ensures m.head == Next(m.space.free, 0)
  {
  }

  /** Spoils the free pages of low memory, so that using one would cause trouble. */
  method PoisonFree(m: Machine, limit: nat)
    requires m.Valid()
    modifies m.mem
    ensures m.Valid()
  {
    hide Machine.Valid;
    HeadOf(m);
    var pp := m.head;
    ghost var k := 0;
    while pp.Some?
      invariant m.Valid() && k <= |m.space.free| && pp == Next(m.space.free, k)
      decreases |m.space.free| - k
    {
      OnList(m, k);
      if PDX(Page2pa(pp.value)) < limit {
        PoisonPage(m, pp.value);
      }
      pp := m.link[pp.value];
      k := k + 1;
    }
  }

  /** The assertions on every page of the list, and on how many there are of either kind. */
  method CheckFreePages(m: Machine, firstFree: nat) returns (ok: bool)
    requires m.Valid()
    ensures ok <==> FreeListPasses(m.space.free, firstFree)
  {
    hide Machine.Valid, MayBeFree, HasKind;
    HeadOf(m);
    var pp, base, ext := m.head, 0, 0;
    ghost var s, k := m.space.free, 0;
    assert s[..0] == [];
    while pp.Some?
      invariant k <= |s| && pp == Next(s, k) && AllMayBeFree(s[..k], firstFree)
      invariant base == CountKind(s[..k], true) && ext == CountKind(s[..k], false)
      decreases |s| - k
    {
      OnList(m, k);
      assert s[..k + 1][..k] == s[..k];
      if !MayBeFree(pp.value, firstFree) {
        return false;
      }
      if pp.value < PageInit.EXT_PAGE {
        base := base + 1;
      } else {
        ext := ext + 1;
      }
      pp := m.link[pp.value];
      k := k + 1;
    }
    assert s[..k] == s;
    CountKindPositive(s, true);
    CountKindPositive(s, false);
    return base > 0 && ext > 0;
  }

  /** The whole test; with `lowOnly` it first moves low memory to the front of the list. */
  method CheckPageFreeList(m: Machine, lowOnly: bool, firstFree: nat) returns (ok: bool)
    requires m.Valid()
    modifies m`head, m`space, m.link, m.mem
    ensures m.Valid()
    ensures m.space == if lowOnly && old(m.space.free) != []
                       then old(m.space).(free := LowFirst(old(m.space.free), 1)) else old(m.space)
    ensures ok <==> FreeListPasses(m.space.free, firstFree)
  {
    hide Machine.Valid, LowFirst;
    HeadOf(m);
    if m.head.None? {
      return false;
    }
    if lowOnly {
      MoveLowFirst(m, 1);
    }
    PoisonFree(m, if lowOnly then 1 else NPDENTRIES);
    ok := CheckFreePages(m, firstFree);
  }

  // -------------------------------------------------- check_page_alloc

  method CountFree(m: Machine) returns (n: nat)
    requires m.Valid()
    ensures n == |m.space.free|
  {
    hide Machine.Valid;
    HeadOf(m);
    var pp := m.head;
    n := 0;
    while pp.Some?
      invariant n <= |m.space.free| && pp == Next(m.space.free, n)
      decreases |m.space.free| - n
    {
      OnList(m, n);
      pp := m.link[pp.value];
      n := n + 1;
    }
  }

  /** The three pages of a test in which nothing is mapped may change places. */
  lemma Swapped(m: Machine, c: Setup, st: Stolen)
    requires InTest(m, c, st, Moment([], None, None, None))
    ensures InTest(m, Setup(c.base, c.pp2, c.pp1, c.pp0), st, Moment([], None, None, None))
  {
    assert SpaceAt(Setup(c.base, c.pp2, c.pp1, c.pp0), Moment([], None, None, None))
        == SpaceAt(c, Moment([], None, None, None));
  }

  /** No page is free; three are freed and handed out again in the opposite order; a spoilt one comes back zeroed. */
  method FreeAndReallocate(m: Machine, a: FrameNo, b: FrameNo, d: FrameNo, ghost c: Setup, ghost st: Stolen)
    requires InTest(m, c, st, Moment([], None, None, None)) && c == Setup(c.base, a, b, d)
    modifies m`head, m`space, m`tlb, m.ref, m.link, m.mem
    ensures InTest(m, c, st, Moment([], None, None, None))
  {
    hide InTest;
    OnePage(a, b, d);
    assert [d] + [b, a] == [d, b, a] && [d, b, a][1..] == [b, a] && [b] + [a] == [b, a] && [b, a][1..] == [a];
    ghost var t := Moment([], None, None, None);
    Distinct(m, c, st, t);
    var r := TestAlloc(m, false, c, st, t);
    assert r == None;
    TestFree(m, a, c, st, t);
    TestFree(m, b, c, st, Moment([a], None, None, None));
    TestFree(m, d, c, st, Moment([b, a], None, None, None));
    var pp0 := TestAlloc(m, false, c, st, Moment([d, b, a], None, None, None));
    var pp1 := TestAlloc(m, false, c, st, Moment([b, a], None, None, None));
    var pp2 := TestAlloc(m, false, c, st, Moment([a], None, None, None));
    assert pp0 == Some(d) && pp1 == Some(b) && pp2 == Some(a) && d != b && b != a && d != a;
    r := TestAlloc(m, false, c, st, t);
    assert r == None;

    TestFill(m, d, 0x0101_0101, c, st, t);
    TestFree(m, d, c, st, t);
    r := TestAlloc(m, true, c, st, Moment([d], None, None, None));
    assert r == Some(d) && forall i :: 0 <= i < 1024 ==> m.mem[d][i] == 0;
  }

  /**
   The assertions of check_page_alloc.  It panics exactly when fewer than three pages are free, before
   anything is changed; otherwise all hold, and in the end everything is as it was, the order of the
   free list included.
   */
  method CheckPageAlloc(m: Machine) returns (ok: bool)
    requires m.Valid() && !m.loaded && 0 !in m.space.table && 1 !in m.space.table
    modifies m`head, m`space, m`tlb, m.ref, m.link, m.mem
    ensures m.Valid() && m.space == old(m.space)
    ensures ok <==> |m.space.free| >= 3
  {
    hide Machine.Valid, InTest, Aside;
    var nfree := CountFree(m);
    if nfree < 3 {
      return false;
    }
    ghost var s := m.space;
    FreeAreManaged(m);
    var p0, p1, p2, fl, c, st := TestBegin(m);
    BackAgain(s, c, st);
    FreeAndReallocate(m, p0.value, p1.value, p2.value, c, st);
    Swapped(m, c, st);
    TestEnd(m, p2.value, p1.value, p0.value, fl, Setup(c.base, c.pp2, c.pp1, c.pp0), st);
    assert m.space == s;
    var left := CountFree(m);
    assert left == nfree;
    return true;
  }
}
