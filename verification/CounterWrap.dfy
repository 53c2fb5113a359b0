/** A run that uses a 16-bit reference counter up: one page mapped at 65535 addresses, and then once more. */
module CounterWrap {
  import opened Mmu
  import opened AddressSpace
  import opened SpaceLaws
  import opened Representation
  import opened KernelMap

  /** Page tables needed for the first n pages. */
  function Tables(n: nat): nat {
    (n + 1023) / 1024
  }

  /** Page 0 mapped at the first n addresses, pages 1 to 64 for the tables. */
  function Fill(n: nat): Space
    requires n <= 0x1_0000
  {
    Space((set f: FrameNo | IsVpn(f) && f <= 64), Spare(Tables(n)), TablesTo(Tables(n)), PagesTo(n))
  }

  function TablesTo(k: nat): map<int, FrameNo> {
    map d | 0 <= d < k && IsVpn(d) :: TableAt(d)
  }

  function PagesTo(n: nat): map<int, Pte> {
    map v | 0 <= v < n && IsVpn(v) :: Pte(0, PTE_P)
  }

  function Spare(k: nat): (s: seq<FrameNo>)
    requires k <= 64
    ensures |s| == 64 - k && forall i :: 0 <= i < |s| ==> s[i] == k + 1 + i
  {
    seq(64 - k, i requires 0 <= i < 64 - k => k + 1 + i)
  }

  function TableAt(d: int): FrameNo {
    if 0 <= d < 64 then d + 1 else 0
  }

  lemma FillCounts(n: nat)
    requires n <= 0x1_0000
    ensures RefCount(Fill(n), 0) == n
  {
    IntervalSize(0, n);
    assert Mappers(Fill(n).pte, 0) == Interval(0, n);
    assert Slots(Fill(n).table, 0) == {};
  }

  /** The walk to page n finds its table, or makes the first spare page its table. */
  lemma WalkFill(n: nat)
    requires n < 0x1_0000
    ensures !NoRoom(Fill(n), n)
    ensures Walk(Fill(n), n, true) == Fill(n + 1).(pte := PagesTo(n))
  {
    hide TablesTo, Spare, PagesTo;
    var k := Tables(n);
    NextTable(k);
    if n % 1024 == 0 {
      assert Dir(n) == k && Tables(n + 1) == k + 1;
    } else {
      assert Dir(n) == k - 1 && Tables(n + 1) == k;
    }
  }

  lemma NextTable(k: nat)
    requires k <= 64
    ensures k !in TablesTo(k) && (k > 0 ==> k - 1 in TablesTo(k))
    ensures k < 64 ==>
      Spare(k) != [] && Spare(k)[0] == k + 1 && Spare(k)[1..] == Spare(k + 1) && TablesTo(k)[k := k + 1] == TablesTo(k + 1)
  {
  }

  /** Mapping the page once more. */
  lemma FillStep(n: nat)
    requires n < 0x1_0000
    ensures Insert(Fill(n), 0, n, 0) == Fill(n + 1)
  {
    hide Walk;
    WalkFill(n);
    assert PagesTo(n)[n := Pte(0, PTE_P)] == PagesTo(n + 1);
  }

  function Inserts(i: nat, n: nat): seq<Op>
    requires n < 0x1_0000
    decreases n - i
  {
    if i >= n then [] else [OpInsert(0, i, 0)] + Inserts(i + 1, n)
  }

  lemma {:induction false} FillRun(i: nat, n: nat)
    requires i <= n < 0x1_0000
    ensures Legal(Fill(i), Inserts(i, n)) && Run(Fill(i), Inserts(i, n)) == Fill(n)
    decreases n - i
  {
    hide Fill;
    if i < n {
      FillHolds(i);
      FillCounts(i);
      FillStep(i);
      FillRun(i + 1, n);
    }
  }

  lemma FillHolds(n: nat)
    requires n <= 0x1_0000
    ensures 0 in Fill(n).managed && 0 !in Fill(n).free && n !in Fill(n).pte
  {
  }

  /**
   From a state without any mapping a legal run takes a counter to its greatest value; one more insert,
   which no longer is legal, makes it wrap around.
   */
  lemma CounterWraps(refs: seq<Count>)
    requires CountRep(refs, Fill(65535))
    ensures Inv(Fill(0)) && Legal(Fill(0), Inserts(0, 65535)) && Run(Fill(0), Inserts(0, 65535)) == Fill(65535)
    ensures 0 < |refs| && refs[0] == 65535 && Increment(refs[0]) == 0
    ensures !CountRep(refs[0 := Increment(refs[0])], Insert(Fill(65535), 0, 65535, 0))
  {
    FillRun(0, 65535);
    FillStep(65535);
    FillCounts(65535);
    FillCounts(0x1_0000);
    FillHolds(65535);
    FillHolds(0x1_0000);
    NothingMapped();
  }

  lemma NothingMapped()
    ensures Inv(Fill(0))
  {
    assert Fill(0).pte == map[] && Fill(0).table == map[];
    forall f
      ensures RefCount(Fill(0), f) == 0
    {
      assert Mappers(Fill(0).pte, f) == {} && Slots(Fill(0).table, f) == {};
    }
  }
}
