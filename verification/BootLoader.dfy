/** The boot loader: reading a kernel image off the disk, whole sectors at a time. */
module BootLoader {
  import opened Base

  const SECTSIZE := 512
  const ELFHDR := 0x1_0000
  const ELF_MAGIC := 0x464C_457F

  type Byte = x: int | 0 <= x < 256

  /** The disk from its second sector on, where the kernel image is. */
  type Image = nat -> Byte

  function Down(a: nat): nat {
    a - a % 512
  }

  function Up(a: nat): nat {
    Down(a + 511)
  }

  /** A stretch of the image and the physical address it is loaded at. */
  datatype Segment = Segment(pa: nat, memsz: nat, offset: nat)

  // -------------------------------------------------- what loading means

  /** Where the program asked for a segment to end, in 32 bits. */
  function End(s: Segment): nat {
    (s.pa + s.memsz) % 0x1_0000_0000
  }

  /** The addresses one load writes, from one sector boundary to another. */
  predicate Covers(s: Segment, j: int) {
    Down(s.pa) <= j < Up(End(s))
  }

  /** The place in the image of the byte that a load leaves at address j. */
  function Origin(s: Segment, j: int): nat
    requires Down(s.pa) <= j
  {
    Down(s.offset) + (j - Down(s.pa))
  }

  function LoadedByte(mem: seq<Byte>, image: Image, s: Segment, j: nat): Byte
    requires j < |mem|
  {
    if Covers(s, j) then image(Origin(s, j)) else mem[j]
  }

  function Load(mem: seq<Byte>, image: Image, s: Segment): (r: seq<Byte>)
    ensures |r| == |mem|
    ensures forall j: nat :: j < |mem| ==> r[j] == LoadedByte(mem, image, s, j)
  {
    seq(|mem|, j requires 0 <= j < |mem| => LoadedByte(mem, image, s, j))
  }

  function LoadAll(mem: seq<Byte>, image: Image, segments: seq<Segment>): (r: seq<Byte>)
    ensures |r| == |mem|
    decreases |segments|
  {
    if segments == [] then mem
    else Load(LoadAll(mem, image, segments[..|segments| - 1]), image, segments[|segments| - 1])
  }

  /** The bytes the program asked for. */
  predicate Wants(s: Segment, j: int) {
    s.pa <= j < s.pa + s.memsz
  }

  /** Every byte asked for is the image's byte at the same distance from the segment's offset. */
  ghost predicate Intact(mem: seq<Byte>, image: Image, s: Segment) {
    forall j: nat :: j < |mem| && Wants(s, j) ==> mem[j] == image(s.offset + (j - s.pa))
  }

  /** Place in memory and place in the image agree modulo a sector, and no address wraps around. */
  predicate Fits(s: Segment, top: nat) {
    && s.pa % 512 == s.offset % 512 && s.offset < 0x1_0000_0000
    && Up(s.pa + s.memsz) <= top && Up(s.pa + s.memsz) < 0x1_0000_0000
  }

  /** No sector of the later segment holds a byte of the earlier one. */
  predicate Spares(later: Segment, earlier: Segment) {
    earlier.pa + earlier.memsz <= Down(later.pa) || Up(later.pa + later.memsz) <= earlier.pa
  }

  ghost predicate Placed(segments: seq<Segment>, top: nat) {
    && (forall k :: 0 <= k < |segments| ==> Fits(segments[k], top))
    && forall k, l :: 0 <= k < l < |segments| ==> Spares(segments[l], segments[k])
  }

  /** What the comment in the program promises: in increasing order, starting at sector boundaries. */
  ghost predicate Increasing(segments: seq<Segment>) {
    && (forall k :: 0 <= k < |segments| ==> segments[k].pa % 512 == 0)
    && forall k, l :: 0 <= k < l < |segments| ==> segments[k].pa + segments[k].memsz <= segments[l].pa
  }

  lemma IncreasingIsPlaced(segments: seq<Segment>, top: nat)
    requires Increasing(segments)
    requires forall k :: 0 <= k < |segments| ==> Fits(segments[k], top)
    ensures Placed(segments, top)
  {
  }

  /** In numbers: from the sector boundary at or below pa to the one at or above the end, and nowhere else. */
  lemma LoadExactly(mem: seq<Byte>, image: Image, s: Segment, j: nat)
    requires j < |mem|
    ensures var lo := s.pa / 512 * 512; var hi := ((s.pa + s.memsz) % 0x1_0000_0000 + 511) / 512 * 512;
      Load(mem, image, s)[j] == if lo <= j < hi then image(s.offset / 512 * 512 + (j - lo)) else mem[j]
  {
  }

  lemma FitsCovers(s: Segment, top: nat, j: int)
    requires Fits(s, top) && Wants(s, j)
    ensures Covers(s, j) && Origin(s, j) == s.offset + (j - s.pa)
  {
  }

  lemma LoadIsIntact(mem: seq<Byte>, image: Image, s: Segment)
    requires Fits(s, |mem|)
    ensures Intact(Load(mem, image, s), image, s)
  {
    forall j: nat | j < |mem| && Wants(s, j)
      ensures Load(mem, image, s)[j] == image(s.offset + (j - s.pa))
    {
      FitsCovers(s, |mem|, j);
    }
  }

  lemma SparedStaysIntact(mem: seq<Byte>, image: Image, later: Segment, s: Segment)
    requires Intact(mem, image, s) && Fits(later, |mem|) && Spares(later, s)
    ensures Intact(Load(mem, image, later), image, s)
  {
    hide Covers, Origin, Fits, Spares;
    forall j: nat | j < |mem| && Wants(s, j)
      ensures Load(mem, image, later)[j] == image(s.offset + (j - s.pa))
    {
      SparedNotCovered(later, s, |mem|, j);
    }
  }

  lemma SparedNotCovered(later: Segment, s: Segment, top: nat, j: int)
    requires Fits(later, top) && Spares(later, s) && Wants(s, j)
    ensures !Covers(later, j)
  {
    assert End(later) == later.pa + later.memsz;
  }

  /** After all loads every segment is intact, though each load but the last may have spilt over others. */
  lemma {:induction false} AllIntact(mem: seq<Byte>, image: Image, segments: seq<Segment>, k: nat)
    requires Placed(segments, |mem|) && k < |segments|
    ensures Intact(LoadAll(mem, image, segments), image, segments[k])
    decreases |segments|
  {
    hide Fits, Spares, Intact, Load;
    var n := |segments| - 1;
    var front, last := segments[..n], segments[n];
    var before := LoadAll(mem, image, front);
    assert forall i :: 0 <= i < n ==> front[i] == segments[i];
    if k == n {
      LoadIsIntact(before, image, last);
    } else {
      AllIntact(mem, image, front, k);
      SparedStaysIntact(before, image, last, segments[k]);
    }
  }

  /** An earlier segment survives a later one exactly when they agree on the bytes in the later one's sectors. */
  lemma SurvivesExactly(mem: seq<Byte>, image: Image, first: Segment, second: Segment)
    requires Fits(first, |mem|) && Fits(second, |mem|)
    ensures Intact(LoadAll(mem, image, [first, second]), image, first) <==>
            forall j: nat :: Wants(first, j) && Covers(second, j) ==> image(Origin(second, j)) == image(Origin(first, j))
  {
    hide Load, Fits, Origin;
    var one := Load(mem, image, first);
    assert [first, second][..1] == [first] && [first][..0] == [];
    assert LoadAll(mem, image, [first]) == one;
    assert LoadAll(mem, image, [first, second]) == Load(one, image, second);
    forall j: nat | Wants(first, j)
      ensures j < |mem| && Origin(first, j) == first.offset + (j - first.pa)
      ensures Load(one, image, second)[j] == if Covers(second, j) then image(Origin(second, j)) else image(Origin(first, j))
    {
      TwoLoads(mem, image, first, second, j);
    }
  }

  lemma TwoLoads(mem: seq<Byte>, image: Image, first: Segment, second: Segment, j: nat)
    requires Fits(first, |mem|) && Wants(first, j)
    ensures j < |mem| && Origin(first, j) == first.offset + (j - first.pa)
    ensures Load(Load(mem, image, first), image, second)[j]
         == if Covers(second, j) then image(Origin(second, j)) else image(Origin(first, j))
  {
    FitsCovers(first, |mem|, j);
  }

  // -------------------------------------------------- reading a segment

  /** Copies one sector into memory; sector 0 is the boot loader itself. */
  method ReadSector(m: array<Byte>, image: Image, dst: nat, sector: nat)
    requires dst + 512 <= m.Length && sector >= 1
    modifies m
    ensures forall j :: dst <= j < dst + 512 ==> m[j] == image(512 * (sector - 1) + (j - dst))
    ensures forall j :: 0 <= j < dst || dst + 512 <= j < m.Length ==> m[j] == old(m[j])
  {
    for i := 0 to SECTSIZE
      invariant forall j :: dst <= j < dst + i ==> m[j] == image(512 * (sector - 1) + (j - dst))
      invariant forall j :: 0 <= j < dst || dst + i <= j < m.Length ==> m[j] == old(m[j])
    {
      m[dst + i] := image(512 * (sector - 1) + i);
    }
  }

  /** Memory once the sectors below pa have been read. */
  ghost predicate Partly(was: seq<Byte>, mem: seq<Byte>, image: Image, s: Segment, pa: nat) {
    && |mem| == |was|
    && forall j: nat :: j < |mem| ==> mem[j] == if Down(s.pa) <= j < pa then image(Origin(s, j)) else was[j]
  }

  lemma SectorRead(was: seq<Byte>, mem: seq<Byte>, mem': seq<Byte>, image: Image, s: Segment, i: nat)
    requires Partly(was, mem, image, s, Down(s.pa) + 512 * i) && |mem'| == |mem|
    requires Down(s.pa) + 512 * i + 512 <= |mem|
    requires forall j :: Down(s.pa) + 512 * i <= j < Down(s.pa) + 512 * i + 512 ==>
               mem'[j] == image(512 * (s.offset / 512 + i) + (j - (Down(s.pa) + 512 * i)))
    requires forall j :: 0 <= j < Down(s.pa) + 512 * i || Down(s.pa) + 512 * i + 512 <= j < |mem| ==> mem'[j] == mem[j]
    ensures Partly(was, mem', image, s, Down(s.pa) + 512 * (i + 1))
  {
    forall j: nat | j < |mem'|
      ensures mem'[j] == if Down(s.pa) <= j < Down(s.pa) + 512 * (i + 1) then image(Origin(s, j)) else was[j]
    {
      if Down(s.pa) + 512 * i <= j < Down(s.pa) + 512 * i + 512 {
        assert 512 * (s.offset / 512 + i) + (j - (Down(s.pa) + 512 * i)) == Origin(s, j);
      }
    }
  }

  /** What the loop needs: it would never end if the last sector reached the top of the address space. */
  predicate Readable(s: Segment, top: nat) {
    && s.pa < 0x1_0000_0000 && s.memsz < 0x1_0000_0000
    && (Down(s.pa) < End(s) ==> Up(End(s)) <= top && Up(End(s)) < 0x1_0000_0000)
  }

  /** Reads a segment, and more, up to sector boundaries on both sides. */
  method ReadSeg(m: array<Byte>, image: Image, s: Segment)
    requires Readable(s, m.Length)
    modifies m
    ensures m[..] == Load(old(m[..]), image, s)
  {
    hide Partly, Origin, Load, Down, Up, Readable;
    var endPa := (s.pa + s.memsz) % 0x1_0000_0000;
    var pa := s.pa - s.pa % SECTSIZE;
    RoundedDown(s);
    var sector := s.offset / SECTSIZE + 1;
    ghost var i := 0;
    PartlyNone(m[..], image, s);
    while pa < endPa
      invariant pa == Down(s.pa) + 512 * i && sector == s.offset / 512 + 1 + i
      invariant Down(s.pa) < End(s) ==> pa <= Up(End(s))
      invariant pa == Down(s.pa) || Down(s.pa) < End(s)
      invariant Partly(old(m[..]), m[..], image, s, pa)
      decreases endPa - pa
    {
      ghost var before := m[..];
      OneSector(s, m.Length, i);
      ReadSector(m, image, pa, sector);
      SectorRead(old(m[..]), before, m[..], image, s, i);
      pa := (pa + SECTSIZE) % 0x1_0000_0000;
      sector := sector + 1;
      i := i + 1;
    }
    AllRead(old(m[..]), m[..], image, s, pa);
  }

  lemma RoundedDown(s: Segment)
    ensures Down(s.pa) == s.pa - s.pa % 512 && (Down(s.pa) < End(s) ==> Down(s.pa) <= Up(End(s)))
    ensures Down(s.pa) % 512 == 0
  {
  }

  /** A sector that starts below the end lies within memory, and the next one starts without a wrap. */
  lemma OneSector(s: Segment, top: nat, i: nat)
    requires Readable(s, top) && Down(s.pa) + 512 * i < End(s)
    ensures Down(s.pa) + 512 * i + 512 <= Up(End(s)) <= top && Up(End(s)) < 0x1_0000_0000
    ensures Down(s.pa) < End(s)
  {
  }

  lemma PartlyNone(mem: seq<Byte>, image: Image, s: Segment)
    ensures Partly(mem, mem, image, s, Down(s.pa))
  {
  }

  lemma AllRead(was: seq<Byte>, mem: seq<Byte>, image: Image, s: Segment, pa: nat)
    requires Partly(was, mem, image, s, pa) && End(s) <= pa
    requires pa == Down(s.pa) || (Down(s.pa) < End(s) && pa <= Up(End(s)) && pa % 512 == 0)
    ensures mem == Load(was, image, s)
  {
    assert Up(End(s)) <= pa || pa == Down(s.pa);
  }

  // -------------------------------------------------- the image

  function Bytes2(b0: Byte, b1: Byte): nat {
    b0 + 256 * b1
  }

  function Bytes4(b0: Byte, b1: Byte, b2: Byte, b3: Byte): nat {
    b0 + 256 * b1 + 0x1_0000 * b2 + 0x100_0000 * b3
  }

  /** The 16-bit and 32-bit fields of the image, least significant byte first. */
  function Half(image: Image, a: nat): nat {
    Bytes2(image(a), image(a + 1))
  }

  function Word(image: Image, a: nat): nat {
    Bytes4(image(a), image(a + 1), image(a + 2), image(a + 3))
  }

  function Magic(image: Image): nat {
    Word(image, 0)
  }

  function Entry(image: Image): nat {
    Word(image, 24)
  }

  function Phoff(image: Image): nat {
    Word(image, 28)
  }

  function Phnum(image: Image): nat {
    Half(image, 44)
  }

  /** The segment that program header k describes: its p_pa, p_memsz and p_offset. */
  function Header(image: Image, k: nat): Segment {
    var a := Phoff(image) + 32 * k;
    Segment(Word(image, a + 12), Word(image, a + 20), Word(image, a + 4))
  }

  function Segments(image: Image): (r: seq<Segment>)
    ensures |r| == Phnum(image)
    ensures forall k: nat :: k < |r| ==> r[k] == Header(image, k)
  {
    hide Header, Phnum;
    seq(Phnum(image), k requires 0 <= k < Phnum(image) => Header(image, k))
  }

  /** The program headers are in the page that is read first, and no load overwrites that page. */
  ghost predicate HeaderSafe(image: Image, top: nat) {
    && Phoff(image) + 32 * Phnum(image) <= 4096
    && forall k: nat :: k < |Segments(image)| ==>
         Readable(Segments(image)[k], top) && ClearOfHeader(Segments(image)[k])
  }

  predicate ClearOfHeader(s: Segment) {
    Up(End(s)) <= 0x1_0000 || 0x1_1000 <= Down(s.pa)
  }

  /** What the loader reads first: a page, to its scratch space. */
  const HEADER := Segment(0x1_0000, 4096, 0)

  /** The first page of the image is in memory. */
  ghost predicate HoldsHeader(mem: seq<Byte>, image: Image) {
    0x1_1000 <= |mem| && forall j: nat :: j < 4096 ==> mem[0x1_0000 + j] == image(j)
  }

  lemma HeaderCovers(j: nat)
    requires j < 4096
    ensures Covers(HEADER, 0x1_0000 + j) && Origin(HEADER, 0x1_0000 + j) == j
  {
    assert Down(0x1_0000) == 0x1_0000 && Up(0x1_1000) == 0x1_1000 && Down(0) == 0;
  }

  lemma HeaderLoaded(mem: seq<Byte>, image: Image)
    requires 0x1_1000 <= |mem|
    ensures HoldsHeader(Load(mem, image, HEADER), image)
  {
    hide Covers, Origin;
    forall j: nat | j < 4096
      ensures Load(mem, image, HEADER)[0x1_0000 + j] == image(j)
    {
      HeaderCovers(j);
    }
  }

  lemma HeaderStays(mem: seq<Byte>, image: Image, s: Segment)
    requires HoldsHeader(mem, image) && ClearOfHeader(s)
    ensures HoldsHeader(Load(mem, image, s), image)
  {
  }

  lemma HeaderReadable(top: nat)
    requires 0x1_1000 <= top
    ensures Readable(HEADER, top)
  {
  }

  /** w is the four bytes of the image at a, least significant first. */
  ghost predicate IsWord(image: Image, a: nat, w: nat) {
    && w < 0x1_0000_0000
    && w % 256 == image(a) && w / 256 % 256 == image(a + 1)
    && w / 0x1_0000 % 256 == image(a + 2) && w / 0x100_0000 == image(a + 3)
  }

  lemma WordDigits(b0: Byte, b1: Byte, b2: Byte, b3: Byte)
    ensures var w := Bytes4(b0, b1, b2, b3);
      w < 0x1_0000_0000 && w % 256 == b0 && w / 256 % 256 == b1 && w / 0x1_0000 % 256 == b2 && w / 0x100_0000 == b3
  {
    var w := Bytes4(b0, b1, b2, b3);
    assert w / 256 == b1 + 256 * b2 + 0x1_0000 * b3;
    assert w / 0x1_0000 == b2 + 256 * b3;
  }

  lemma WordIsWord(image: Image, a: nat)
    ensures IsWord(image, a, Word(image, a))
  {
    WordDigits(image(a), image(a + 1), image(a + 2), image(a + 3));
  }

  /** An image is an executable exactly when it begins with the bytes 0x7F, 'E', 'L', 'F'. */
  lemma MagicExactly(mem: seq<Byte>, image: Image)
    requires 0x1_1000 <= |mem|
    ensures WordAt(Load(mem, image, HEADER), 0x1_0000) == ELF_MAGIC <==>
            image(0) == 0x7F && image(1) == 0x45 && image(2) == 0x4C && image(3) == 0x46
  {
    hide HoldsHeader, Load, WordAt, HalfAt, Half, Bytes4;
    HeaderLoaded(mem, image);
    ReadsHeader(Load(mem, image, HEADER), image, 0);
    MagicBytes(image(0), image(1), image(2), image(3));
  }

  lemma MagicBytes(b0: Byte, b1: Byte, b2: Byte, b3: Byte)
    ensures Bytes4(b0, b1, b2, b3) == ELF_MAGIC <==> b0 == 0x7F && b1 == 0x45 && b2 == 0x4C && b3 == 0x46
  {
    WordDigits(b0, b1, b2, b3);
  }

  /** Number, place, size and offset of the segments, and the entry point, by the bytes of the image. */
  lemma HeaderFields(image: Image, k: nat)
    ensures |Segments(image)| % 256 == image(44) && |Segments(image)| / 256 == image(45)
    ensures IsWord(image, 28, Phoff(image)) && IsWord(image, 24, Entry(image))
    ensures k < |Segments(image)| ==>
      var at := Phoff(image) + 32 * k; var s := Segments(image)[k];
      IsWord(image, at + 12, s.pa) && IsWord(image, at + 20, s.memsz) && IsWord(image, at + 4, s.offset)
  {
    hide IsWord, Word;
    var at := Phoff(image) + 32 * k;
    WordIsWord(image, 28);
    WordIsWord(image, 24);
    WordIsWord(image, at + 12);
    WordIsWord(image, at + 20);
    WordIsWord(image, at + 4);
  }

  // -------------------------------------------------- the loader

  /** The 16-bit and 32-bit fields in memory. */
  function HalfAt(mem: seq<Byte>, a: nat): nat
    requires a + 2 <= |mem|
  {
    Bytes2(mem[a], mem[a + 1])
  }

  function WordAt(mem: seq<Byte>, a: nat): nat
    requires a + 4 <= |mem|
  {
    Bytes4(mem[a], mem[a + 1], mem[a + 2], mem[a + 3])
  }

  /** The segment that the program header at address a describes. */
  function HeaderAt(mem: seq<Byte>, a: nat): Segment
    requires a + 32 <= |mem|
  {
    Segment(WordAt(mem, a + 12), WordAt(mem, a + 20), WordAt(mem, a + 4))
  }

  /** Where the program headers begin and end, as 32-bit pointers. */
  function FirstHeader(mem: seq<Byte>): nat
    requires 0x1_1000 <= |mem|
  {
    (0x1_0000 + WordAt(mem, 0x1_0000 + 28)) % 0x1_0000_0000
  }

  function LastHeader(mem: seq<Byte>): nat
    requires 0x1_1000 <= |mem|
  {
    (FirstHeader(mem) + 32 * HalfAt(mem, 0x1_0000 + 44)) % 0x1_0000_0000
  }

  /**
   The loop: each program header is read from memory as the loads before it have left it.  None when it
   comes to a header that is not in memory, or to a load that would not end there.
   */
  function LoadLoop(mem: seq<Byte>, image: Image, ph: nat, eph: nat): (r: Option<seq<Byte>>)
    ensures r.Some? ==> |r.value| == |mem|
    decreases eph - ph
  {
    if ph >= eph then Some(mem)
    else if ph + 32 > |mem| || !Readable(HeaderAt(mem, ph), |mem|) then None
    else LoadLoop(Load(mem, image, HeaderAt(mem, ph)), image, ph + 32, eph)
  }

  /** The kernel is entered; or the image is not an executable; or it asks for what memory does not have. */
  datatype Outcome = Entered(entry: nat) | Bad | Stuck

  method ReadHalf(m: array<Byte>, a: nat) returns (h: nat)
    requires a + 2 <= m.Length
    ensures h == HalfAt(m[..], a)
  {
    h := Bytes2(m[a], m[a + 1]);
  }

  method ReadWord(m: array<Byte>, a: nat) returns (w: nat)
    requires a + 4 <= m.Length
    ensures w == WordAt(m[..], a)
  {
    w := Bytes4(m[a], m[a + 1], m[a + 2], m[a + 3]);
  }

  /** Loads whatever the image says, wherever it says. */
  method BootMain(m: array<Byte>, image: Image) returns (o: Outcome)
    requires 0x1_1000 <= m.Length < 0x1_0000_0000
    modifies m
    ensures var header := Load(old(m[..]), image, HEADER);
      if WordAt(header, 0x1_0000) != ELF_MAGIC then o == Bad && m[..] == header
      else match LoadLoop(header, image, FirstHeader(header), LastHeader(header))
           case None => o == Stuck
           case Some(r) => m[..] == r && o == Entered(WordAt(r, 0x1_0000 + 24))
    ensures o == Bad <==> !(image(0) == 0x7F && image(1) == 0x45 && image(2) == 0x4C && image(3) == 0x46)
  {
    hide Load, Readable, WordAt, HalfAt, LoadLoop;
    MagicExactly(m[..], image);
    HeaderReadable(m.Length);
    ReadSeg(m, image, Segment(ELFHDR, SECTSIZE * 8, 0));
    ghost var header := m[..];
    var magic := ReadWord(m, ELFHDR);
    if magic != ELF_MAGIC {
      return Bad;
    }
    var phoff := ReadWord(m, ELFHDR + 28);
    var phnum := ReadHalf(m, ELFHDR + 44);
    var ph := (ELFHDR + phoff) % 0x1_0000_0000;
    var eph := (ph + 32 * phnum) % 0x1_0000_0000;
    var ok := LoadSegments(m, image, ph, eph);
    if !ok {
      return Stuck;
    }
    var entry := ReadWord(m, ELFHDR + 24);
    return Entered(entry);
  }

  /** The loop over the program headers. */
  method LoadSegments(m: array<Byte>, image: Image, first: nat, eph: nat) returns (ok: bool)
    requires m.Length < 0x1_0000_0000
    modifies m
    ensures match LoadLoop(old(m[..]), image, first, eph)
      case None => !ok
      case Some(r) => ok && m[..] == r
  {
    hide Load, Readable, WordAt;
    var ph := first;
    while ph < eph
      invariant LoadLoop(m[..], image, ph, eph) == LoadLoop(old(m[..]), image, first, eph)
    {
      if ph + 32 > m.Length {
        return false;
      }
      var pa := ReadWord(m, ph + 12);
      var memsz := ReadWord(m, ph + 20);
      var offset := ReadWord(m, ph + 4);
      assert Segment(pa, memsz, offset) == HeaderAt(m[..], ph);
      if !Readable(Segment(pa, memsz, offset), m.Length) {
        return false;
      }
      ReadSeg(m, image, Segment(pa, memsz, offset));
      ph := (ph + 32) % 0x1_0000_0000;
    }
    return true;
  }

  // -------------------------------------------------- kernels that are well placed

  lemma ReadsHeader(mem: seq<Byte>, image: Image, k: nat)
    requires HoldsHeader(mem, image) && k + 4 <= 4096
    ensures WordAt(mem, 0x1_0000 + k) == Word(image, k) && HalfAt(mem, 0x1_0000 + k) == Half(image, k)
  {
    assert mem[0x1_0000 + (k + 1)] == image(k + 1) && mem[0x1_0000 + (k + 2)] == image(k + 2);
    assert mem[0x1_0000 + (k + 3)] == image(k + 3);
  }

  lemma ReadsSegment(mem: seq<Byte>, image: Image, k: nat)
    requires HoldsHeader(mem, image) && Phoff(image) + 32 * k + 32 <= 4096
    ensures HeaderAt(mem, 0x1_0000 + Phoff(image) + 32 * k) == Header(image, k)
  {
    hide HoldsHeader, WordAt, HalfAt, Word, Half;
    var a := Phoff(image) + 32 * k;
    ReadsHeader(mem, image, a + 12);
    ReadsHeader(mem, image, a + 20);
    ReadsHeader(mem, image, a + 4);
  }

  /** No load touches the header page. */
  lemma {:induction false} HeaderKept(mem: seq<Byte>, image: Image, k: nat)
    requires HeaderSafe(image, |mem|) && k <= |Segments(image)| && HoldsHeader(mem, image)
    ensures HoldsHeader(LoadAll(mem, image, Segments(image)[..k]), image)
    decreases k
  {
    hide HoldsHeader, Readable, ClearOfHeader, Load, LoadAll, Header, Phoff, Phnum;
    if k == 0 {
      NothingLoaded(mem, image);
      assert Segments(image)[..0] == [];
    } else {
      HeaderKept(mem, image, k - 1);
      LoadOneMore(mem, image, Segments(image), k - 1);
      HeaderStays(LoadAll(mem, image, Segments(image)[..k - 1]), image, Segments(image)[k - 1]);
    }
  }

  lemma NothingLoaded(mem: seq<Byte>, image: Image)
    ensures LoadAll(mem, image, []) == mem
  {
  }

  /** From header k on: as the header page stays as it is, the loop loads the segments the image lists. */
  lemma {:induction false} LoopLoads(mem: seq<Byte>, image: Image, k: nat)
    requires HeaderSafe(image, |mem|) && k <= |Segments(image)| && HoldsHeader(mem, image)
    ensures LoadLoop(LoadAll(mem, image, Segments(image)[..k]), image,
                     0x1_0000 + Phoff(image) + 32 * k, 0x1_0000 + Phoff(image) + 32 * Phnum(image))
         == Some(LoadAll(mem, image, Segments(image)))
    decreases |Segments(image)| - k
  {
    hide HoldsHeader, Readable, ClearOfHeader, Load, HeaderAt, LoadLoop, LoadAll, Header, Phoff, Phnum;
    var segments := Segments(image);
    var m := LoadAll(mem, image, segments[..k]);
    var ph, eph := 0x1_0000 + Phoff(image) + 32 * k, 0x1_0000 + Phoff(image) + 32 * Phnum(image);
    LoopTurn(m, image, ph, eph);
    if k < |segments| {
      HeaderKept(mem, image, k);
      ReadsSegment(m, image, k);
      LoadOneMore(mem, image, segments, k);
      HoldsSize(m, image);
      LoopLoads(mem, image, k + 1);
    } else {
      assert segments[..k] == segments;
    }
  }

  lemma LoopTurn(mem: seq<Byte>, image: Image, ph: nat, eph: nat)
    ensures ph >= eph ==> LoadLoop(mem, image, ph, eph) == Some(mem)
    ensures ph < eph && ph + 32 <= |mem| && Readable(HeaderAt(mem, ph), |mem|) ==>
      LoadLoop(mem, image, ph, eph) == LoadLoop(Load(mem, image, HeaderAt(mem, ph)), image, ph + 32, eph)
  {
  }

  lemma LoadOneMore(mem: seq<Byte>, image: Image, segments: seq<Segment>, k: nat)
    requires k < |segments|
    ensures LoadAll(mem, image, segments[..k + 1]) == Load(LoadAll(mem, image, segments[..k]), image, segments[k])
  {
    assert segments[..k + 1][..k] == segments[..k];
  }

  lemma HoldsSize(mem: seq<Byte>, image: Image)
    requires HoldsHeader(mem, image)
    ensures 0x1_1000 <= |mem|
  {
  }

  /**
   With its program headers in the first page and no segment over that page, a kernel is loaded segment
   by segment as the image lists them, and entered where the image says.
   */
  lemma SafeKernelLoads(mem: seq<Byte>, image: Image)
    requires 0x1_1000 <= |mem| && HeaderSafe(image, |mem|)
    ensures var header := Load(mem, image, HEADER);
      && WordAt(header, 0x1_0000) == Magic(image)
      && LoadLoop(header, image, FirstHeader(header), LastHeader(header)) == Some(LoadAll(header, image, Segments(image)))
      && WordAt(LoadAll(header, image, Segments(image)), 0x1_0000 + 24) == Entry(image)
  {
    hide HoldsHeader, Load, WordAt, HalfAt, Word, Half, LoadLoop, LoadAll;
    var header := Load(mem, image, HEADER);
    HeaderLoaded(mem, image);
    ReadsHeader(header, image, 0);
    ReadsHeader(header, image, 28);
    ReadsHeader(header, image, 44);
    NothingLoaded(header, image);
    assert Segments(image)[..0] == [] && Segments(image)[..|Segments(image)|] == Segments(image);
    LoopLoads(header, image, 0);
    HeaderKept(header, image, |Segments(image)|);
    ReadsHeader(LoadAll(header, image, Segments(image)), image, 24);
  }

  /** A kernel whose segments are well placed is all in memory when it is entered. */
  lemma KernelIsLoaded(mem: seq<Byte>, image: Image, k: nat)
    requires 0x1_1000 <= |mem| && HeaderSafe(image, |mem|) && k < |Segments(image)|
    requires Increasing(Segments(image))
    requires forall i :: 0 <= i < |Segments(image)| ==> Fits(Segments(image)[i], |mem|)
    ensures var header := Load(mem, image, HEADER);
      var loaded := LoadLoop(header, image, FirstHeader(header), LastHeader(header));
      loaded.Some? && Intact(loaded.value, image, Segments(image)[k])
  {
    hide Load, WordAt, HeaderSafe, FirstHeader, LastHeader, LoadLoop, Increasing, Placed, Fits, Intact;
    SafeKernelLoads(mem, image);
    IncreasingIsPlaced(Segments(image), |mem|);
    AllIntact(Load(mem, image, HEADER), image, Segments(image), k);
  }
}
