/**
 Address arithmetic of the two-level x86 page tables: how a linear address splits into
 directory index, table index and offset, and how an entry packs a frame number and
 twelve flag bits.  Shifts and masks are written as division and remainder.
 */
module Mmu {
  const PGSIZE := 4096
  const PTSIZE := 0x40_0000
  const NPDENTRIES := 1024
  const NPTENTRIES := 1024

  /** Number of pages in the 32-bit linear address space. */
  const NVPN := 0x10_0000

  const PTE_P := 1
  const PTE_W := 2
  const PTE_U := 4

  const KERNBASE := 0xF000_0000
  const KSTACKTOP := KERNBASE
  const KSTKSIZE := 8 * PGSIZE
  const ULIM := KSTACKTOP - PTSIZE - PTSIZE
  const UVPT := ULIM - PTSIZE
  const UPAGES := UVPT - PTSIZE
  const UENVS := UPAGES - PTSIZE
  const UTOP := UENVS

  /** Directory slot through which the directory maps itself. */
  const SELF := 957

  /** Virtual page numbers below this one are the user part, whose pages are reference counted. */
  const NUSER := 0xEEC00

  type Word = x: int | 0 <= x < 0x1_0000_0000

  /** Physical frames are numbered by the top twenty bits of a physical address. */
  type FrameNo = x: int | 0 <= x < 0x10_0000

  type Flags = x: int | 0 <= x < 4096

  predicate IsVpn(v: int) {
    0 <= v < NVPN
  }

  // -------------------------------------------------- linear addresses

  function PGNUM(la: Word): (v: int)
    ensures IsVpn(v)
  {
    la / 4096
  }

  function PDX(la: Word): (d: int)
    ensures 0 <= d < NPDENTRIES
  {
    (la / 0x40_0000) % 1024
  }

  function PTX(la: Word): (t: int)
    ensures 0 <= t < NPTENTRIES
  {
    (la / 4096) % 1024
  }

  function PGOFF(la: Word): (o: int)
    ensures 0 <= o < PGSIZE
  {
    la % 4096
  }

  function PGADDR(d: int, t: int, o: int): (la: Word)
    requires 0 <= d < NPDENTRIES && 0 <= t < NPTENTRIES && 0 <= o < PGSIZE
  {
    d * 0x40_0000 + t * 4096 + o
  }

  /** Directory and table index of a virtual page number. */
  function Dir(v: int): int {
    v / 1024
  }

  function Index(v: int): int {
    v % 1024
  }

  function Vpn(d: int, t: int): int {
    d * 1024 + t
  }

  lemma DivTwice(la: Word)
    ensures la / 0x40_0000 == (la / 4096) / 1024 < 1024
  {
    var v, o := la / 4096, la % 4096;
    var d, t := v / 1024, v % 1024;
    assert la == d * 0x40_0000 + (t * 4096 + o);
  }

  /** PGNUM carries exactly the two indices. */
  lemma SplitPageNumber(la: Word)
    ensures PDX(la) == Dir(PGNUM(la)) && PTX(la) == Index(PGNUM(la))
    ensures PGNUM(la) == Vpn(PDX(la), PTX(la))
  {
    DivTwice(la);
  }

  /** PGADDR puts an address together from its fields. */
  lemma FieldsOf(d: int, t: int, o: int)
    requires 0 <= d < NPDENTRIES && 0 <= t < NPTENTRIES && 0 <= o < PGSIZE
    ensures PGNUM(PGADDR(d, t, o)) == Vpn(d, t)
    ensures PDX(PGADDR(d, t, o)) == d && PTX(PGADDR(d, t, o)) == t && PGOFF(PGADDR(d, t, o)) == o
  {
    var la := PGADDR(d, t, o);
    assert la == (d * 1024 + t) * 4096 + o;
    assert la / 4096 == d * 1024 + t;
    SplitPageNumber(la);
  }

  /** The three fields determine the address. */
  lemma SplitAddress(la: Word)
    ensures PGADDR(PDX(la), PTX(la), PGOFF(la)) == la
  {
    SplitPageNumber(la);
  }

  lemma SplitVpn(v: int)
    requires IsVpn(v)
    ensures 0 <= Dir(v) < NPDENTRIES && 0 <= Index(v) < NPTENTRIES && Vpn(Dir(v), Index(v)) == v
  {
  }

  // -------------------------------------------------- entries

  /** What a present directory or table entry says. */
  datatype Pte = Pte(frame: FrameNo, flags: Flags)

  /** The flags an entry gets when the caller asks for `perm`: the present bit is always added. */
  function WithPresent(perm: Flags): (flags: Flags)
    ensures flags % 2 == 1
    ensures flags / 2 == perm / 2
  {
    perm - perm % 2 + 1
  }

  function Encode(p: Pte): (w: Word) {
    p.frame * 4096 + p.flags
  }

  function Decode(w: Word): Pte {
    Pte(w / 4096, w % 4096)
  }

  predicate Present(w: Word) {
    w % 2 == 1
  }

  /** PTE_ADDR clears the twelve flag bits. */
  function PTE_ADDR(w: Word): Word {
    w - w % 4096
  }

  function Page2pa(f: FrameNo): Word {
    f * 4096
  }

  lemma DecodeEncode(p: Pte)
    ensures Decode(Encode(p)) == p
    ensures Encode(Decode(Encode(p))) == Encode(p)
    ensures PTE_ADDR(Encode(p)) == Page2pa(p.frame)
    ensures Present(Encode(p)) <==> p.flags % 2 == 1
    ensures Present(Encode(p)) ==> Encode(p) != 0
  {
  }

  /**
   The source builds entries with shifts and bit-or on 32-bit words.  On such words these are the product
   and sums of Encode and WithPresent.
   */
  lemma EntryBits(frame: bv32, perm: bv32)
    requires frame < 0x10_0000 && perm < 0x1000
    ensures (frame << 12) | perm | 1 == frame * 4096 + perm / 2 * 2 + 1
  {
  }

  /** It takes words apart with shifts and masks, which are the quotients and remainders of Decode and Present. */
  lemma WordBits(w: bv32)
    ensures w >> 12 == w / 4096 && w & 0xFFF == w % 4096 && w & 0xFFFF_F000 == w - w % 4096
    ensures w & 1 == 1 <==> w % 2 == 1
  {
  }

  /** Likewise the fields of an address. */
  lemma AddressBits(la: bv32, d: bv32, t: bv32, o: bv32)
    requires d < 1024 && t < 1024 && o < 4096
    ensures (la >> 22) & 0x3FF == la / 0x40_0000 % 1024 && (la >> 12) & 0x3FF == la / 4096 % 1024
    ensures (d << 22) | (t << 12) | o == d * 0x40_0000 + t * 4096 + o
  {
  }
}
