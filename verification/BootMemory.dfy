/** How much memory mem_init needs, in numbers. */
module BootMemory {
  import opened Mmu
  import opened FreeListOrder
  import opened KernelMap
  import opened PageInit
  import opened MemInit
  import CheckAlloc

  /** A page of low memory is one in the first 4MB. */
  lemma LowIsBelow4MB(f: FrameNo)
    ensures IsHigh(f, 1) <==> f >= 1024
  {
    HighExactly(f, 1);
  }

  lemma {:induction false} PickAppend(s: seq<FrameNo>, t: seq<FrameNo>, limit: nat, high: bool)
    ensures Pick(s + t, limit, high) == Pick(s, limit, high) + Pick(t, limit, high)
    decreases |t|
  {
    if t == [] {
      assert s + t == s;
    } else {
      var front := t[..|t| - 1];
      assert (s + t)[..|s + t| - 1] == s + front;
      PickAppend(s, front, limit, high);
    }
  }

  function Min(a: nat, b: nat): nat {
    if a < b then a else b
  }

  function Max(a: nat, b: nat): nat {
    if a < b then b else a
  }

  lemma {:induction false} PickDown(hi: nat, lo: nat)
    requires hi <= 0x1_0000
    ensures Pick(Down(hi, lo), 1, false) == Down(Min(hi, 1024), lo)
    ensures Pick(Down(hi, lo), 1, true) == Down(hi, Max(lo, 1024))
    decreases hi
  {
    hide Pick, Down;
    DownStep(hi, lo);
    DownStep(Min(hi, 1024), lo);
    DownStep(hi, Max(lo, 1024));
    if hi > lo {
      PickDown(hi - 1, lo);
      PickAppend([hi - 1], Down(hi - 1, lo), 1, false);
      PickAppend([hi - 1], Down(hi - 1, lo), 1, true);
      PickOne(hi - 1);
      DownStep(hi - 1, Max(lo, 1024));
    } else {
      PickNone();
    }
  }

  lemma DownStep(hi: nat, lo: nat)
    requires hi <= 0x1_0000
    ensures Down(hi, lo) == if hi <= lo then [] else [hi - 1] + Down(hi - 1, lo)
  {
  }

  lemma PickNone()
    ensures Pick([], 1, false) == [] && Pick([], 1, true) == []
  {
  }

  lemma PickOne(f: FrameNo)
    ensures Pick([f], 1, false) == (if f < 1024 then [f] else [])
    ensures Pick([f], 1, true) == (if f < 1024 then [] else [f])
  {
    LowIsBelow4MB(f);
    assert [f][..0] == [];
  }

  /** The list after the first test, page by page: low extended memory, base memory, and the rest. */
  lemma FirstListExactly(npages: nat, basemem: nat, kernelEnd: nat)
    requires npages <= 0x1_0000 && basemem <= IO_PAGE
    ensures var first := FirstFree(RecordsEnd(kernelEnd, npages));
      FirstList(npages, basemem, kernelEnd)
        == Down(Min(npages, 1024), first) + Down(basemem, 1) + Down(npages, Max(first, 1024))
  {
    hide Down, FirstFree, Pick;
    var first := FirstFree(RecordsEnd(kernelEnd, npages));
    PickAppend(Down(npages, first), Down(basemem, 1), 1, false);
    PickAppend(Down(npages, first), Down(basemem, 1), 1, true);
    PickDown(npages, first);
    PickDown(basemem, 1);
    assert Down(basemem, 1024) == [];
    assert Down(npages, Max(first, 1024)) + [] == Down(npages, Max(first, 1024));
  }

  /** Which kinds of pages are left of such a list when its first k pages are gone. */
  lemma KindsLeft(a: seq<FrameNo>, b: seq<FrameNo>, c: seq<FrameNo>, k: nat)
    requires k <= |a + b + c|
    requires (forall i :: 0 <= i < |a| ==> a[i] >= 256) && (forall i :: 0 <= i < |b| ==> b[i] < 256)
    requires forall i :: 0 <= i < |c| ==> c[i] >= 256
    ensures var q := (a + b + c)[k..];
      && (CheckAlloc.HasKind(q, true) <==> b != [] && k < |a| + |b|)
      && (CheckAlloc.HasKind(q, false) <==> k < |a| || (c != [] && k < |a| + |b| + |c|))
  {
    var q := (a + b + c)[k..];
    if b != [] && k < |a| + |b| {
      assert CheckAlloc.IsKind(q[|a| + |b| - 1 - k], true);
    }
    if k < |a| {
      assert CheckAlloc.IsKind(q[0], false);
    }
    if c != [] && k < |a| + |b| + |c| {
      assert CheckAlloc.IsKind(q[|q| - 1], false);
    }
    forall i | 0 <= i < |q|
      ensures q[i] == if k + i < |a| then a[k + i] else if k + i < |a| + |b| then b[k + i - |a|] else c[k + i - |a| - |b|]
    {
    }
  }

  /**
   mem_init gets through if and only if: the memory is a multiple of 2MB; base memory has a page besides
   page 0; the 66 page tables leave some of base memory in the first 4MB, and some extended memory; and
   three pages are left in all.
   */
  lemma BootableExactly(npages: nat, basemem: nat, kernelEnd: nat)
    requires npages <= 0x1_0000 && basemem <= 160 && 0x10_0000 <= kernelEnd && (kernelEnd + 4095) / 4096 < npages
    ensures var first := (kernelEnd + 4095) / 4096 + 1 + npages / 512;
      var low := (if first < Min(npages, 1024) then Min(npages, 1024) - first else 0) + basemem - 1;
      Bootable(npages, basemem, kernelEnd) <==>
        && npages % 512 == 0 && first < npages && basemem >= 2
        && low > 66 && (npages > 1024 || npages - first > 66) && npages - first + basemem - 1 >= 69
  {
    hide FirstList, Down, CheckAlloc.HasKind;
    if npages % 512 == 0 {
      var first := (kernelEnd + 4095) / 4096 + 1 + npages / 512;
      Sizes(npages, kernelEnd);
      FirstListExactly(npages, basemem, kernelEnd);
      var a, b, c := Down(Min(npages, 1024), first), Down(basemem, 1), Down(npages, Max(first, 1024));
      if 66 <= |a + b + c| {
        KindsLeft(a, b, c, 66);
      }
    }
  }

  lemma Sizes(npages: nat, kernelEnd: nat)
    requires npages % 512 == 0 && 0 < npages && 0x10_0000 <= kernelEnd
    ensures FirstFree(RecordsEnd(kernelEnd, npages)) == (kernelEnd + 4095) / 4096 + 1 + npages / 512
    ensures TablesNeeded(RecordPages(npages)) == 66
  {
  }
}
