/** What a page allows: the access rights that the processor computes from the two words it reads. */
module Access {
  import opened Base
  import opened Mmu
  import opened AddressSpace
  import opened Representation

  /** Whether user programs may use a page at all, and whether it may be written. */
  datatype Rights = Rights(user: bool, write: bool)

  /**
   Bit 0 of a word is present, bit 1 writable, bit 2 user; a right needs its bit in the directory word and
   in the table word (section 6.4 of the Intel 80386 Programmer's Reference Manual).  None for a page fault.
   */
  function RightsOf(mem: seq<Frame>, dir: FrameNo, v: int): Option<Rights>
    requires IsVpn(v)
  {
    if dir >= |mem| || mem[dir][v / 1024] % 2 == 0 then None
    else
      var d := mem[dir][v / 1024];
      if d / 4096 >= |mem| || mem[d / 4096][v % 1024] % 2 == 0 then None
      else
        var e := mem[d / 4096][v % 1024];
        Some(Rights(d / 4 % 2 == 1 && e / 4 % 2 == 1, d / 2 % 2 == 1 && e / 2 % 2 == 1))
  }

  lemma EvenPlus(a: int, x: int)
    ensures (2 * a + x) % 2 == x % 2
  {
  }

  /** The flags are the twelve low bits of an entry's word, and the frame is the rest. */
  lemma WordParts(p: Pte)
    ensures Encode(p) % 4096 == p.flags && Encode(p) / 4096 == p.frame
    ensures Encode(p) % 2 == p.flags % 2 && Encode(p) / 2 % 2 == p.flags / 2 % 2 && Encode(p) / 4 % 2 == p.flags / 4 % 2
  {
    var w := Encode(p);
    assert w == 4096 * p.frame + p.flags;
    assert w / 2 == 2 * (1024 * p.frame) + p.flags / 2;
    assert w / 4 == 2 * (512 * p.frame) + p.flags / 4;
    EvenPlus(2048 * p.frame, p.flags);
    EvenPlus(1024 * p.frame, p.flags / 2);
    EvenPlus(512 * p.frame, p.flags / 4);
  }

  /** The two words the processor reads. */
  lemma WordsRead(mem: seq<Frame>, dir: FrameNo, s: Space, v: int)
    requires MemRep(mem, dir, s) && IsVpn(v)
    ensures dir < |mem| && mem[dir][v / 1024] == DirWord(s, dir, v / 1024)
    ensures v / 1024 in s.table ==>
      v / 1024 != SELF && s.table[v / 1024] < |mem| && mem[s.table[v / 1024]][v % 1024] == EntryWord(s, v)
    ensures v / 1024 != SELF && v in s.pte ==> v / 1024 in s.table && s.pte[v].flags % 2 == 1
  {
    SplitVpn(v);
    if v / 1024 in s.table {
      assert EntryMatches(mem, s, v);
    }
  }

  /** A page outside the virtual page table has the rights that its own entry gives it. */
  lemma RightsOfPage(mem: seq<Frame>, dir: FrameNo, s: Space, v: int)
    requires MemRep(mem, dir, s) && IsVpn(v) && v / 1024 != 957
    ensures RightsOf(mem, dir, v) ==
      if v in s.pte then Some(Rights(s.pte[v].flags / 4 % 2 == 1, s.pte[v].flags / 2 % 2 == 1)) else None
  {
    hide MemRep, Encode;
    WordsRead(mem, dir, s, v);
    if v / 1024 in s.table {
      WordParts(TableEntry(s.table[v / 1024]));
      if v in s.pte {
        WordParts(s.pte[v]);
      }
    }
  }

  /** The virtual page table may be read by everybody and written by nobody. */
  lemma RightsOfTable(mem: seq<Frame>, dir: FrameNo, s: Space, v: int)
    requires MemRep(mem, dir, s) && IsVpn(v) && v / 1024 == 957
    ensures RightsOf(mem, dir, v) == if v % 1024 == 957 || v % 1024 in s.table then Some(Rights(true, false)) else None
  {
    hide MemRep, Encode;
    WordsRead(mem, dir, s, v);
    WordsRead(mem, dir, s, 1024 * (v % 1024));
    WordParts(Pte(dir, PTE_U + PTE_P));
    if v % 1024 in s.table {
      WordParts(TableEntry(s.table[v % 1024]));
    }
  }

  /** A page faults exactly when the processor finds no translation for it. */
  lemma RightsExist(mem: seq<Frame>, dir: FrameNo, v: int)
    requires IsVpn(v)
    ensures RightsOf(mem, dir, v).Some? <==> HardwareWalk(mem, dir, v).Some?
  {
  }

  /** An entry made with the caller's permission gives the rights whose bits the permission has. */
  lemma GrantedRights(mem: seq<Frame>, dir: FrameNo, s: Space, v: int, f: FrameNo, perm: Flags)
    requires MemRep(mem, dir, s) && 0 <= v < NUSER && v in s.pte && s.pte[v] == Pte(f, WithPresent(perm))
    ensures RightsOf(mem, dir, v) == Some(Rights(perm / 4 % 2 == 1, perm / 2 % 2 == 1))
  {
    RightsOfPage(mem, dir, s, v);
  }
}
