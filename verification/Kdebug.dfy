/**
 The symbol-table search of the kernel debugger: a binary search over one type of entry in a table
 where entries of several types are interleaved.
 */
module Kdebug {
  type Address = x: int | 0 <= x < 0x1_0000_0000

  datatype Stab = Stab(n_type: int, n_value: Address)

  const N_FUN := 0x24
  const N_SO := 0x64

  predicate Is(stabs: seq<Stab>, ty: int, i: int) {
    0 <= i < |stabs| && stabs[i].n_type == ty
  }

  /** Entries of one type are in increasing order of address. */
  ghost predicate Sorted(stabs: seq<Stab>, ty: int, lo: int, hi: int) {
    forall i, j :: lo <= i < j <= hi && Is(stabs, ty, i) && Is(stabs, ty, j) ==> stabs[i].n_value <= stabs[j].n_value
  }

  /** An entry of the type at or below the address. */
  predicate Low(stabs: seq<Stab>, ty: int, addr: Address, i: int) {
    Is(stabs, ty, i) && stabs[i].n_value <= addr
  }

  predicate High(stabs: seq<Stab>, ty: int, addr: Address, i: int) {
    Is(stabs, ty, i) && stabs[i].n_value > addr
  }

  /** The last entry of [lo, hi] at or below the address, lo - 1 if there is none. */
  function LastLow(stabs: seq<Stab>, ty: int, addr: Address, lo: int, hi: int): (k: int)
    requires lo <= hi + 1
    ensures lo - 1 <= k <= hi
    ensures k >= lo ==> Low(stabs, ty, addr, k)
    ensures forall i :: k < i <= hi ==> !Low(stabs, ty, addr, i)
    decreases hi - lo
  {
    if hi < lo then lo - 1
    else if Low(stabs, ty, addr, hi) then hi
    else LastLow(stabs, ty, addr, lo, hi - 1)
  }

  /** The first entry of [lo, hi] above the address, hi + 1 if there is none. */
  function FirstHigh(stabs: seq<Stab>, ty: int, addr: Address, lo: int, hi: int): (k: int)
    requires lo <= hi + 1
    ensures lo <= k <= hi + 1
    ensures k <= hi ==> High(stabs, ty, addr, k)
    ensures forall i :: lo <= i < k ==> !High(stabs, ty, addr, i)
    decreases hi - lo
  {
    if hi < lo then hi + 1
    else if High(stabs, ty, addr, lo) then lo
    else FirstHigh(stabs, ty, addr, lo + 1, hi)
  }

  ghost predicate NoEntry(stabs: seq<Stab>, ty: int, lo: int, hi: int) {
    forall i :: lo <= i <= hi ==> !Is(stabs, ty, i)
  }

  ghost predicate NoValue(stabs: seq<Stab>, ty: int, value: int, lo: int, hi: int) {
    forall i :: lo <= i <= hi && Is(stabs, ty, i) ==> stabs[i].n_value != value
  }

  /**
   When the search is asked something it surely can answer: it bumps the address past an exact hit, so
   the range may have an entry with the address or an entry one above it, but not both.
   */
  ghost predicate Searchable(stabs: seq<Stab>, ty: int, addr: Address, lo: int, hi: int) {
    && Sorted(stabs, ty, lo, hi)
    && (NoValue(stabs, ty, addr, lo, hi) || (addr < 0xFFFF_FFFF && NoValue(stabs, ty, addr + 1, lo, hi)))
  }

  /** What the search returns: three cases. */
  ghost predicate Found(stabs: seq<Stab>, ty: int, addr: Address, lo: int, hi: int, left: int, right: int)
    requires lo <= hi + 1
  {
    var low, high := LastLow(stabs, ty, addr, lo, hi), FirstHigh(stabs, ty, addr, lo, hi);
    if NoEntry(stabs, ty, lo, hi) then left == lo && right == lo - 1
    else if low >= lo then left == low && right == high - 1
    else right == high - 1 && left == if high == lo then lo - 1 else lo
  }

  /** The last entry of the type at or before k, l - 1 if there is none from l on. */
  function LastOfType(stabs: seq<Stab>, ty: int, l: int, k: int): (m: int)
    requires l <= k + 1
    ensures l - 1 <= m <= k
    ensures m >= l ==> Is(stabs, ty, m)
    ensures forall i :: m < i <= k ==> !Is(stabs, ty, i)
    decreases k - l
  {
    if k < l then l - 1 else if Is(stabs, ty, k) then k else LastOfType(stabs, ty, l, k - 1)
  }

  /** True when the next turn of the loop is an exact hit at l, which moves neither bound. */
  predicate HitsLeftEnd(stabs: seq<Stab>, ty: int, addr: Address, l: int, r: int) {
    l <= r && LastOfType(stabs, ty, l, (l + r) / 2) == l && 0 <= l < |stabs| && stabs[l].n_value == addr
  }

  function Bump(addr: Address): Address {
    if addr == 0xFFFF_FFFF then 0 else addr + 1
  }

  /** While the search runs: everything left of l is low, everything right of r is high. */
  ghost predicate Narrowed(stabs: seq<Stab>, ty: int, addr0: Address, addr: Address, lo: int, hi: int,
      l: int, r: int, left: int, right: int, any: bool) {
    && (addr == addr0 || addr == addr0 + 1)
    && lo <= l <= r + 1 <= hi + 1
    && right == r && lo <= left <= hi + 1
    && (forall i :: lo <= i < l && Is(stabs, ty, i) ==> stabs[i].n_value <= addr0)
    && (forall i :: r < i <= hi && Is(stabs, ty, i) ==> stabs[i].n_value > addr0)
    && (r < hi ==> Is(stabs, ty, r + 1))
    && (left == lo || (left <= hi && Low(stabs, ty, addr0, left)))
    && (!any ==> left == lo && r == hi && NoEntry(stabs, ty, lo, l - 1))
    && (any ==> !NoEntry(stabs, ty, lo, hi))
    && (addr == addr0 + 1 ==> NoValue(stabs, ty, addr, l, r))
  }

  /** One turn of the loop, with m the last entry of the type at or before the middle. */
  lemma Turn(stabs: seq<Stab>, ty: int, addr0: Address, addr: Address, lo: int, hi: int,
      l: int, r: int, left: int, right: int, any: bool, mid: int, m: int)
    requires 0 <= lo <= hi + 1 <= |stabs| && Sorted(stabs, ty, lo, hi)
    requires Narrowed(stabs, ty, addr0, addr, lo, hi, l, r, left, right, any)
    requires l <= mid <= r && m == LastOfType(stabs, ty, l, mid)
    ensures m < l ==> Narrowed(stabs, ty, addr0, addr, lo, hi, mid + 1, r, left, right, any)
    ensures m >= l && stabs[m].n_value < addr ==> Narrowed(stabs, ty, addr0, addr, lo, hi, mid + 1, r, m, right, true)
    ensures m >= l && stabs[m].n_value > addr ==> Narrowed(stabs, ty, addr0, addr, lo, hi, l, m - 1, left, m - 1, true)
    ensures m >= l && stabs[m].n_value == addr && addr0 < 0xFFFF_FFFF && NoValue(stabs, ty, addr0 + 1, m, r) ==>
      addr == addr0 && Narrowed(stabs, ty, addr0, Bump(addr), lo, hi, m, r, m, right, true)
  {
    if m >= l {
      assert Is(stabs, ty, m);
    }
  }

  /** The scan at the end: the last entry of the type in (left, right], or left. */
  ghost predicate Scanned(stabs: seq<Stab>, ty: int, left: int, right: int, f: int) {
    if right < left then f == right
    else left <= f <= right && (f == left || Is(stabs, ty, f)) && NoEntry(stabs, ty, f + 1, right)
  }

  lemma Finish(stabs: seq<Stab>, ty: int, addr0: Address, addr: Address, lo: int, hi: int,
      l: int, r: int, left: int, right: int, f: int)
    requires 0 <= lo <= hi + 1 <= |stabs| && Sorted(stabs, ty, lo, hi) && l > r
    requires Narrowed(stabs, ty, addr0, addr, lo, hi, l, r, left, right, true)
    requires Scanned(stabs, ty, left, right, f)
    ensures Found(stabs, ty, addr0, lo, hi, f, right)
  {
    var low, high := LastLow(stabs, ty, addr0, lo, hi), FirstHigh(stabs, ty, addr0, lo, hi);
    assert high == r + 1 by {
      if r < hi {
        assert High(stabs, ty, addr0, r + 1);
      }
    }
    if left > r && left <= hi {
      assert left == lo || !High(stabs, ty, addr0, left);
    }
    if low >= lo {
      assert low <= r by {
        assert Is(stabs, ty, low);
      }
      if lo <= f && Is(stabs, ty, f) {
        assert Low(stabs, ty, addr0, f);
      }
    } else {
      if lo <= f && Is(stabs, ty, f) {
        assert Low(stabs, ty, addr0, f);
      }
    }
  }

  /** The state of the loop: the interval, the address looked for, and what has been found so far. */
  datatype Search = Search(l: int, r: int, addr: Address, left: int, right: int, any: bool)

  ghost predicate InTable(stabs: seq<Stab>, s: Search) {
    0 <= s.l <= s.r + 1 <= |stabs|
  }

  /** One turn of the loop. */
  function Advance(stabs: seq<Stab>, ty: int, s: Search): (n: Search)
    requires InTable(stabs, s) && s.l <= s.r
    ensures InTable(stabs, n) && s.l <= n.l && n.r <= s.r
    ensures n.r - n.l < s.r - s.l ||
      (n.l == s.l && n.r == s.r && HitsLeftEnd(stabs, ty, s.addr, s.l, s.r) && !HitsLeftEnd(stabs, ty, n.addr, n.l, n.r))
  {
    var mid := (s.l + s.r) / 2;
    var m := LastOfType(stabs, ty, s.l, mid);
    if m < s.l then s.(l := mid + 1)
    else if stabs[m].n_value < s.addr then s.(any := true, left := m, l := mid + 1)
    else if stabs[m].n_value > s.addr then s.(any := true, right := m - 1, r := m - 1)
    else s.(any := true, left := m, l := m, addr := Bump(s.addr))
  }

  /** The loop, on every table: an exact hit at the left end moves no bound, but the next turn does. */
  function Complete(stabs: seq<Stab>, ty: int, s: Search): (n: Search)
    requires InTable(stabs, s)
    ensures InTable(stabs, n) && n.l > n.r
    decreases s.r - s.l, if HitsLeftEnd(stabs, ty, s.addr, s.l, s.r) then 1 else 0
  {
    if s.l > s.r then s else Complete(stabs, ty, Advance(stabs, ty, s))
  }

  /** The scan at the end, from k down to an entry of the type, at most to `left`. */
  function ScanBack(stabs: seq<Stab>, ty: int, left: int, k: int): (f: int)
    ensures if k <= left then f == k else left <= f <= k && (f == left || Is(stabs, ty, f))
    ensures forall i :: f < i <= k ==> !Is(stabs, ty, i)
    decreases k - left
  {
    if k <= left || Is(stabs, ty, k) then k else ScanBack(stabs, ty, left, k - 1)
  }

  /** The bracket the search ends with. */
  function Bracket(stabs: seq<Stab>, ty: int, addr: Address, lo: int, hi: int): (int, int)
    requires 0 <= lo <= hi + 1 <= |stabs|
  {
    Outcome(stabs, ty, Complete(stabs, ty, Search(lo, hi, addr, lo, hi, false)))
  }

  /** What becomes of the bracket after the loop. */
  function Outcome(stabs: seq<Stab>, ty: int, s: Search): (int, int) {
    if s.any then (ScanBack(stabs, ty, s.left, s.right), s.right) else (s.left, s.left - 1)
  }

  // -------------------------------------------------- the exact hit

  /** True when the next turn of the loop finds an entry with exactly the address. */
  predicate Hits(stabs: seq<Stab>, ty: int, s: Search)
    requires InTable(stabs, s)
  {
    s.l <= s.r && HitIndex(stabs, ty, s) >= s.l && stabs[HitIndex(stabs, ty, s)].n_value == s.addr
  }

  /** The entry that the next turn of the loop looks at. */
  function HitIndex(stabs: seq<Stab>, ty: int, s: Search): int
    requires InTable(stabs, s) && s.l <= s.r
  {
    LastOfType(stabs, ty, s.l, (s.l + s.r) / 2)
  }

  /** The state in which the loop finds the address for the first time, or ends. */
  function FirstHit(stabs: seq<Stab>, ty: int, s: Search): (t: Search)
    requires InTable(stabs, s)
    ensures InTable(stabs, t) && (t.l <= t.r ==> Hits(stabs, ty, t))
    decreases s.r - s.l
  {
    if s.l > s.r || Hits(stabs, ty, s) then s else FirstHit(stabs, ty, Advance(stabs, ty, s))
  }

  /**
   When the search goes wrong: the address itself is found, and an entry one above it is still in the
   interval, or the bump wraps around.
   */
  ghost predicate Confused(stabs: seq<Stab>, ty: int, addr: Address, lo: int, hi: int)
    requires 0 <= lo <= hi + 1 <= |stabs|
  {
    var t := FirstHit(stabs, ty, Search(lo, hi, addr, lo, hi, false));
    t.l <= t.r &&
    (addr == 0xFFFF_FFFF ||
      (!NoValue(stabs, ty, addr + 1, HitIndex(stabs, ty, t), t.r) && !RightByChance(stabs, ty, addr, lo, hi, t)))
  }

  /**
   Two wrongs: the last address of all is found in place of the one before it, the second bump wraps, and
   the search ends just below the entry it then has, which may happen to be the right place.
   */
  ghost predicate RightByChance(stabs: seq<Stab>, ty: int, addr: Address, lo: int, hi: int, t: Search)
    requires 0 <= lo <= hi + 1 && InTable(stabs, t) && t.l <= t.r
  {
    addr == 0xFFFF_FFFE &&
    var u := FirstHit(stabs, ty, Advance(stabs, ty, t));
    u.l <= u.r && HitIndex(stabs, ty, u) == FirstHigh(stabs, ty, addr, lo, hi) == LastLow(stabs, ty, addr, lo, hi) + 1
  }

  ghost predicate NarrowedTo(stabs: seq<Stab>, ty: int, addr0: Address, lo: int, hi: int, s: Search) {
    Narrowed(stabs, ty, addr0, s.addr, lo, hi, s.l, s.r, s.left, s.right, s.any)
  }

  lemma AdvanceNarrows(stabs: seq<Stab>, ty: int, addr0: Address, lo: int, hi: int, s: Search)
    requires 0 <= lo <= hi + 1 <= |stabs| && Sorted(stabs, ty, lo, hi)
    requires InTable(stabs, s) && NarrowedTo(stabs, ty, addr0, lo, hi, s) && s.l <= s.r
    requires s.addr == addr0 && Hits(stabs, ty, s) ==>
      addr0 < 0xFFFF_FFFF && NoValue(stabs, ty, addr0 + 1, HitIndex(stabs, ty, s), s.r)
    ensures NarrowedTo(stabs, ty, addr0, lo, hi, Advance(stabs, ty, s))
    ensures Advance(stabs, ty, s).addr == if Hits(stabs, ty, s) then addr0 + 1 else s.addr
    ensures s.addr == addr0 + 1 ==> !Hits(stabs, ty, s)
    ensures s.any || Hits(stabs, ty, s) ==> Advance(stabs, ty, s).any
  {
    hide Narrowed, Sorted, HitsLeftEnd;
    var mid := (s.l + s.r) / 2;
    var m := LastOfType(stabs, ty, s.l, mid);
    Turn(stabs, ty, addr0, s.addr, lo, hi, s.l, s.r, s.left, s.right, s.any, mid, m);
    BumpedMisses(stabs, ty, addr0, lo, hi, s, m);
  }

  lemma BumpedMisses(stabs: seq<Stab>, ty: int, addr0: Address, lo: int, hi: int, s: Search, m: int)
    requires InTable(stabs, s) && NarrowedTo(stabs, ty, addr0, lo, hi, s) && m <= s.r && (m >= s.l ==> Is(stabs, ty, m))
    ensures s.addr == addr0 || s.addr == addr0 + 1
    ensures s.addr == addr0 + 1 && m >= s.l ==> stabs[m].n_value != s.addr
  {
  }

  /** Up to the first hit the loop narrows the interval, looking for the address it was given. */
  lemma {:induction false} FirstHitNarrows(stabs: seq<Stab>, ty: int, addr0: Address, lo: int, hi: int, s: Search)
    requires 0 <= lo <= hi + 1 <= |stabs| && Sorted(stabs, ty, lo, hi)
    requires InTable(stabs, s) && NarrowedTo(stabs, ty, addr0, lo, hi, s) && s.addr == addr0
    ensures var t := FirstHit(stabs, ty, s);
      NarrowedTo(stabs, ty, addr0, lo, hi, t) && t.addr == addr0 && Complete(stabs, ty, s) == Complete(stabs, ty, t)
    decreases s.r - s.l
  {
    hide NarrowedTo, Sorted, HitsLeftEnd, Advance, Hits;
    if s.l <= s.r && !Hits(stabs, ty, s) {
      AdvanceNarrows(stabs, ty, addr0, lo, hi, s);
      FirstHitNarrows(stabs, ty, addr0, lo, hi, Advance(stabs, ty, s));
    }
  }

  /** So it does with the bumped address, as long as no entry has that. */
  lemma {:induction false} BumpedNarrows(stabs: seq<Stab>, ty: int, addr0: Address, lo: int, hi: int, s: Search)
    requires 0 <= lo <= hi + 1 <= |stabs| && Sorted(stabs, ty, lo, hi)
    requires InTable(stabs, s) && NarrowedTo(stabs, ty, addr0, lo, hi, s) && s.addr == addr0 + 1 && s.any
    ensures NarrowedTo(stabs, ty, addr0, lo, hi, Complete(stabs, ty, s)) && Complete(stabs, ty, s).any
    decreases s.r - s.l
  {
    hide NarrowedTo, Sorted, HitsLeftEnd, Advance;
    if s.l <= s.r {
      AdvanceNarrows(stabs, ty, addr0, lo, hi, s);
      BumpedNarrows(stabs, ty, addr0, lo, hi, Advance(stabs, ty, s));
    }
  }

  // -------------------------------------------------- past the first hit

  /** An entry above the address is the best one so far. */
  ghost predicate Overshot(stabs: seq<Stab>, ty: int, addr0: Address, lo: int, s: Search) {
    lo <= s.left <= s.l && s.left <= s.r && Is(stabs, ty, s.left) && addr0 < stabs[s.left].n_value < s.addr
  }

  /** An entry one above the address is going to be. */
  ghost predicate Pending(stabs: seq<Stab>, ty: int, addr0: Address, s: Search) {
    s.addr == addr0 + 1 && !NoValue(stabs, ty, addr0 + 1, s.l, s.r)
  }

  /** The address has wrapped: every entry in the interval is above it. */
  ghost predicate Falling(stabs: seq<Stab>, ty: int, lo: int, s: Search) {
    && lo <= s.left == s.l <= s.r + 1 && Is(stabs, ty, s.l)
    && forall i :: s.l <= i <= s.r && Is(stabs, ty, i) ==> stabs[i].n_value > s.addr
  }

  ghost predicate Misled(stabs: seq<Stab>, ty: int, addr0: Address, lo: int, hi: int, s: Search) {
    && InTable(stabs, s) && lo <= s.l && s.r <= hi && s.right == s.r && s.any
    && (Overshot(stabs, ty, addr0, lo, s) || Pending(stabs, ty, addr0, s) ||
        (Falling(stabs, ty, lo, s) && exists e :: lo <= e < s.left && High(stabs, ty, addr0, e)))
  }

  /** Once the address has wrapped, the interval shrinks to nothing just below its left end. */
  lemma {:induction false} FallsToLeft(stabs: seq<Stab>, ty: int, lo: int, s: Search)
    requires InTable(stabs, s) && Falling(stabs, ty, lo, s) && s.any && s.right == s.r
    ensures var n := Complete(stabs, ty, s);
      n.any && n.left == s.left && Outcome(stabs, ty, n) == (s.left - 1, s.left - 1)
    decreases s.r - s.l
  {
    hide HitsLeftEnd;
    if s.l <= s.r {
      FallsToLeft(stabs, ty, lo, Advance(stabs, ty, s));
    }
  }

  lemma {:induction false} MisledMisses(stabs: seq<Stab>, ty: int, addr0: Address, lo: int, hi: int, s: Search)
    requires 0 <= lo <= hi + 1 <= |stabs| && Sorted(stabs, ty, lo, hi) && LastLow(stabs, ty, addr0, lo, hi) >= lo
    requires addr0 < 0xFFFF_FFFE && InTable(stabs, s) && Misled(stabs, ty, addr0, lo, hi, s)
    ensures var (left, right) := Outcome(stabs, ty, Complete(stabs, ty, s));
      !Found(stabs, ty, addr0, lo, hi, left, right)
    decreases s.r - s.l, if HitsLeftEnd(stabs, ty, s.addr, s.l, s.r) then 1 else 0
  {
    hide HitsLeftEnd, Found, Misled, Outcome, Sorted;
    if s.l <= s.r {
      MisledTurn(stabs, ty, addr0, lo, hi, s);
      MisledMisses(stabs, ty, addr0, lo, hi, Advance(stabs, ty, s));
    } else {
      EndMisses(stabs, ty, addr0, lo, hi, s);
    }
  }

  lemma MisledTurn(stabs: seq<Stab>, ty: int, addr0: Address, lo: int, hi: int, s: Search)
    requires 0 <= lo <= hi + 1 <= |stabs| && Sorted(stabs, ty, lo, hi)
    requires addr0 < 0xFFFF_FFFE && Misled(stabs, ty, addr0, lo, hi, s) && InTable(stabs, s) && s.l <= s.r
    ensures Misled(stabs, ty, addr0, lo, hi, Advance(stabs, ty, s))
  {
    if Overshot(stabs, ty, addr0, lo, s) {
      OvershotTurn(stabs, ty, addr0, lo, hi, s);
    } else if Pending(stabs, ty, addr0, s) {
      PendingTurn(stabs, ty, addr0, lo, hi, s);
    } else {
      FallingTurn(stabs, ty, addr0, lo, hi, s);
    }
  }

  lemma OvershotTurn(stabs: seq<Stab>, ty: int, addr0: Address, lo: int, hi: int, s: Search)
    requires 0 <= lo <= hi + 1 <= |stabs| && Sorted(stabs, ty, lo, hi) && s.l <= s.r
    requires Misled(stabs, ty, addr0, lo, hi, s) && InTable(stabs, s) && Overshot(stabs, ty, addr0, lo, s)
    ensures Misled(stabs, ty, addr0, lo, hi, Advance(stabs, ty, s))
  {
    hide HitsLeftEnd;
    assert High(stabs, ty, addr0, s.left);
  }

  lemma PendingTurn(stabs: seq<Stab>, ty: int, addr0: Address, lo: int, hi: int, s: Search)
    requires 0 <= lo <= hi + 1 <= |stabs| && Sorted(stabs, ty, lo, hi) && s.l <= s.r
    requires Misled(stabs, ty, addr0, lo, hi, s) && InTable(stabs, s) && Pending(stabs, ty, addr0, s)
    ensures var n := Advance(stabs, ty, s);
      && (!Hits(stabs, ty, s) ==> Pending(stabs, ty, addr0, n))
      && (Hits(stabs, ty, s) && addr0 < 0xFFFF_FFFE ==> Overshot(stabs, ty, addr0, lo, n))
      && n.any && n.right == n.r
  {
    hide HitsLeftEnd, Misled;
    var m, n := HitIndex(stabs, ty, s), Advance(stabs, ty, s);
    var j :| s.l <= j <= s.r && Is(stabs, ty, j) && stabs[j].n_value == addr0 + 1;
    InRange(stabs, ty, addr0, lo, hi, s);
    if !Hits(stabs, ty, s) {
      assert m >= s.l && stabs[m].n_value > s.addr ==> j < m;
      assert m >= s.l && stabs[m].n_value < s.addr ==> j > m;
      assert n.l <= j <= n.r;
    }
  }

  lemma InRange(stabs: seq<Stab>, ty: int, addr0: Address, lo: int, hi: int, s: Search)
    requires Misled(stabs, ty, addr0, lo, hi, s)
    ensures lo <= s.l && s.r <= hi && s.right == s.r && s.any
  {
  }

  lemma FallingTurn(stabs: seq<Stab>, ty: int, addr0: Address, lo: int, hi: int, s: Search)
    requires 0 <= lo <= hi + 1 <= |stabs| && s.l <= s.r && Misled(stabs, ty, addr0, lo, hi, s)
    requires InTable(stabs, s) && Falling(stabs, ty, lo, s) && exists e :: lo <= e < s.left && High(stabs, ty, addr0, e)
    ensures Misled(stabs, ty, addr0, lo, hi, Advance(stabs, ty, s))
  {
    hide HitsLeftEnd;
    assert Falling(stabs, ty, lo, Advance(stabs, ty, s));
  }

  lemma EndMisses(stabs: seq<Stab>, ty: int, addr: Address, lo: int, hi: int, n: Search)
    requires 0 <= lo <= hi + 1 <= |stabs| && Sorted(stabs, ty, lo, hi) && LastLow(stabs, ty, addr, lo, hi) >= lo
    requires Misled(stabs, ty, addr, lo, hi, n) && n.l > n.r
    ensures var (left, right) := Outcome(stabs, ty, n);
      !Found(stabs, ty, addr, lo, hi, left, right)
  {
    var f := ScanBack(stabs, ty, n.left, n.right);
    if Overshot(stabs, ty, addr, lo, n) {
      assert Is(stabs, ty, f);
      assert !Low(stabs, ty, addr, f);
    }
  }

  /** With the last address pending, the loop does find it. */
  lemma {:induction false} PendingHits(stabs: seq<Stab>, ty: int, lo: int, hi: int, s: Search)
    requires 0 <= lo <= hi + 1 <= |stabs| && Sorted(stabs, ty, lo, hi)
    requires Misled(stabs, ty, 0xFFFF_FFFE, lo, hi, s) && InTable(stabs, s) && Pending(stabs, ty, 0xFFFF_FFFE, s)
    ensures var u := FirstHit(stabs, ty, s);
      && u.l <= u.r && lo <= u.l && u.r <= hi && u.right == u.r && u.addr == 0xFFFF_FFFF
      && Complete(stabs, ty, s) == Complete(stabs, ty, Advance(stabs, ty, u))
    decreases s.r - s.l
  {
    hide HitsLeftEnd, Sorted, Overshot, Advance;
    OneTurn(stabs, ty, s);
    if !Hits(stabs, ty, s) {
      PendingTurn(stabs, ty, 0xFFFF_FFFE, lo, hi, s);
      PendingHits(stabs, ty, lo, hi, Advance(stabs, ty, s));
    }
  }

  /** After a hit on the last address, the bump wraps and the outcome is just below the hit. */
  lemma WrapsBelow(stabs: seq<Stab>, ty: int, lo: int, hi: int, u: Search)
    requires 0 <= lo <= hi + 1 <= |stabs| && Sorted(stabs, ty, lo, hi)
    requires InTable(stabs, u) && Hits(stabs, ty, u) && lo <= u.l && u.r <= hi && u.right == u.r && u.addr == 0xFFFF_FFFF
    ensures var m := HitIndex(stabs, ty, u);
      lo <= m <= hi && Is(stabs, ty, m) &&
      Outcome(stabs, ty, Complete(stabs, ty, Advance(stabs, ty, u))) == (m - 1, m - 1)
  {
    hide HitsLeftEnd, Complete, Outcome;
    assert Falling(stabs, ty, lo, Advance(stabs, ty, u));
    FallsToLeft(stabs, ty, lo, Advance(stabs, ty, u));
  }

  // -------------------------------------------------- when the search finds the bracket

  /** On every sorted table the search finds the bracket of the address exactly when the bump does not confuse it. */
  lemma SearchFindsExactly(stabs: seq<Stab>, ty: int, addr: Address, lo: int, hi: int)
    requires 0 <= lo <= hi + 1 <= |stabs| && Sorted(stabs, ty, lo, hi)
    ensures var (left, right) := Bracket(stabs, ty, addr, lo, hi);
      Found(stabs, ty, addr, lo, hi, left, right) <==> !Confused(stabs, ty, addr, lo, hi)
  {
    hide Sorted, HitsLeftEnd, Found, FirstHit, Complete, Advance, Outcome, NoValue, NarrowedTo;
    if Clear(stabs, ty, addr, lo, hi) {
      ClearFinds(stabs, ty, addr, lo, hi);
    } else {
      var s := Search(lo, hi, addr, lo, hi, false);
      StartNarrowed(stabs, ty, addr, lo, hi);
      FirstHitNarrows(stabs, ty, addr, lo, hi, s);
      AfterHit(stabs, ty, addr, lo, hi, FirstHit(stabs, ty, s));
    }
  }

  /** The address is never found, or nothing in the interval is one above it. */
  ghost predicate Clear(stabs: seq<Stab>, ty: int, addr: Address, lo: int, hi: int)
    requires 0 <= lo <= hi + 1 <= |stabs|
  {
    var t := FirstHit(stabs, ty, Search(lo, hi, addr, lo, hi, false));
    t.l <= t.r ==> addr < 0xFFFF_FFFF && NoValue(stabs, ty, addr + 1, HitIndex(stabs, ty, t), t.r)
  }

  /** From the first hit on, with an entry one above the address or with an address that wraps. */
  lemma AfterHit(stabs: seq<Stab>, ty: int, addr: Address, lo: int, hi: int, t: Search)
    requires 0 <= lo <= hi + 1 <= |stabs| && Sorted(stabs, ty, lo, hi)
    requires InTable(stabs, t) && NarrowedTo(stabs, ty, addr, lo, hi, t) && t.addr == addr && Hits(stabs, ty, t)
    requires addr == 0xFFFF_FFFF || !NoValue(stabs, ty, addr + 1, HitIndex(stabs, ty, t), t.r)
    ensures var (left, right) := Outcome(stabs, ty, Complete(stabs, ty, t));
      Found(stabs, ty, addr, lo, hi, left, right) <==> RightByChance(stabs, ty, addr, lo, hi, t)
  {
    hide HitsLeftEnd, Sorted, NoValue, Outcome, Narrowed, Misled, Pending, FirstHit, Complete, Advance;
    OneTurn(stabs, ty, t);
    HitIsLow(stabs, ty, addr, lo, hi, t);
    if addr == 0xFFFF_FFFF {
      WrapsBelow(stabs, ty, lo, hi, t);
    } else if addr == 0xFFFF_FFFE {
      var n := Advance(stabs, ty, t);
      PendingHits(stabs, ty, lo, hi, n);
      WrapsBelow(stabs, ty, lo, hi, FirstHit(stabs, ty, n));
    } else {
      MisledMisses(stabs, ty, addr, lo, hi, Advance(stabs, ty, t));
    }
  }

  lemma StartNarrowed(stabs: seq<Stab>, ty: int, addr: Address, lo: int, hi: int)
    requires 0 <= lo <= hi + 1 <= |stabs|
    ensures NarrowedTo(stabs, ty, addr, lo, hi, Search(lo, hi, addr, lo, hi, false))
  {
  }

  lemma ClearFinds(stabs: seq<Stab>, ty: int, addr: Address, lo: int, hi: int)
    requires 0 <= lo <= hi + 1 <= |stabs| && Sorted(stabs, ty, lo, hi) && Clear(stabs, ty, addr, lo, hi)
    ensures var (left, right) := Bracket(stabs, ty, addr, lo, hi);
      Found(stabs, ty, addr, lo, hi, left, right)
  {
    hide NarrowedTo, Sorted, HitsLeftEnd, NoValue, Found, Outcome, FirstHit, Complete, Advance, Hits;
    var s := Search(lo, hi, addr, lo, hi, false);
    var t := FirstHit(stabs, ty, s);
    StartNarrowed(stabs, ty, addr, lo, hi);
    FirstHitNarrows(stabs, ty, addr, lo, hi, s);
    OneTurn(stabs, ty, t);
    if t.l <= t.r {
      AdvanceNarrows(stabs, ty, addr, lo, hi, t);
      BumpedNarrows(stabs, ty, addr, lo, hi, Advance(stabs, ty, t));
    }
    EndFinds(stabs, ty, addr, lo, hi, Complete(stabs, ty, s));
  }

  lemma EndFinds(stabs: seq<Stab>, ty: int, addr: Address, lo: int, hi: int, n: Search)
    requires 0 <= lo <= hi + 1 <= |stabs| && Sorted(stabs, ty, lo, hi)
    requires InTable(stabs, n) && NarrowedTo(stabs, ty, addr, lo, hi, n) && n.l > n.r
    ensures var (left, right) := Outcome(stabs, ty, n);
      Found(stabs, ty, addr, lo, hi, left, right)
  {
    hide Sorted;
    if n.any {
      Finish(stabs, ty, addr, n.addr, lo, hi, n.l, n.r, n.left, n.right, ScanBack(stabs, ty, n.left, n.right));
    }
  }

  lemma HitIsLow(stabs: seq<Stab>, ty: int, addr: Address, lo: int, hi: int, t: Search)
    requires 0 <= lo <= hi + 1 <= |stabs| && Sorted(stabs, ty, lo, hi)
    requires InTable(stabs, t) && NarrowedTo(stabs, ty, addr, lo, hi, t) && t.addr == addr && Hits(stabs, ty, t)
    ensures LastLow(stabs, ty, addr, lo, hi) >= lo && lo <= t.l && t.r <= hi && t.right == t.r
    ensures !NoEntry(stabs, ty, lo, hi)
    ensures addr < 0xFFFF_FFFF && !NoValue(stabs, ty, addr + 1, HitIndex(stabs, ty, t), t.r) ==>
      var n := Advance(stabs, ty, t);
      Misled(stabs, ty, addr, lo, hi, n) && Pending(stabs, ty, addr, n)
  {
    hide Sorted, HitsLeftEnd;
    assert Low(stabs, ty, addr, HitIndex(stabs, ty, t));
  }

  /**
   In particular it does when the range does not have both the address and the one above it; an address
   below all entries of the type still gets a bracket, and only a range without the type gets none.
   */
  lemma SearchFinds(stabs: seq<Stab>, ty: int, addr: Address, lo: int, hi: int)
    requires 0 <= lo <= hi + 1 <= |stabs| && Searchable(stabs, ty, addr, lo, hi)
    ensures var (left, right) := Bracket(stabs, ty, addr, lo, hi);
      Found(stabs, ty, addr, lo, hi, left, right)
  {
    var s := Search(lo, hi, addr, lo, hi, false);
    StartNarrowed(stabs, ty, addr, lo, hi);
    FirstHitNarrows(stabs, ty, addr, lo, hi, s);
    HitIsEntry(stabs, ty, addr, lo, hi, FirstHit(stabs, ty, s));
    ClearFinds(stabs, ty, addr, lo, hi);
  }

  lemma HitIsEntry(stabs: seq<Stab>, ty: int, addr: Address, lo: int, hi: int, t: Search)
    requires InTable(stabs, t) && NarrowedTo(stabs, ty, addr, lo, hi, t) && t.addr == addr
    ensures lo <= t.l && t.r <= hi && (t.l <= t.r && Hits(stabs, ty, t) ==> !NoValue(stabs, ty, addr, lo, hi))
  {
    if t.l <= t.r && Hits(stabs, ty, t) {
      assert Is(stabs, ty, HitIndex(stabs, ty, t));
    }
  }

  /** With an entry at or below it, the address lies in the bracket and before the next entry of the type. */
  lemma BracketContains(stabs: seq<Stab>, ty: int, addr: Address, lo: int, hi: int, k: int)
    requires 0 <= lo <= hi + 1 <= |stabs| && Searchable(stabs, ty, addr, lo, hi)
    requires lo <= k <= hi && Low(stabs, ty, addr, k)
    ensures var (left, right) := Bracket(stabs, ty, addr, lo, hi);
      && lo <= left <= right <= hi
      && Is(stabs, ty, left) && stabs[left].n_value <= addr
      && (forall i :: left < i <= right ==> !Is(stabs, ty, i))
      && (right < hi ==> Is(stabs, ty, right + 1) && stabs[right + 1].n_value > addr)
  {
    SearchFinds(stabs, ty, addr, lo, hi);
    var low, high := LastLow(stabs, ty, addr, lo, hi), FirstHigh(stabs, ty, addr, lo, hi);
    assert low >= lo;
    if high <= hi {
      assert Is(stabs, ty, high) && Is(stabs, ty, low);
      assert low < high;
    }
    forall i | low < i <= high - 1
      ensures !Is(stabs, ty, i)
    {
      assert !Low(stabs, ty, addr, i) && !High(stabs, ty, addr, i);
    }
  }

  /**
   The comment on the search says that left > right tells that no matching entry contains the address.
   That holds exactly when the range has no entry of the type or has one at or below the address.
   */
  lemma EmptyBracketExactly(stabs: seq<Stab>, ty: int, addr: Address, lo: int, hi: int)
    requires 0 <= lo <= hi + 1 <= |stabs| && Searchable(stabs, ty, addr, lo, hi)
    ensures var (left, right) := Bracket(stabs, ty, addr, lo, hi);
      var contained := LastLow(stabs, ty, addr, lo, hi) >= lo;
      (left > right <==> !contained) <==> NoEntry(stabs, ty, lo, hi) || contained
  {
    SearchFinds(stabs, ty, addr, lo, hi);
    var low := LastLow(stabs, ty, addr, lo, hi);
    if low >= lo {
      BracketContains(stabs, ty, addr, lo, hi, low);
      assert !NoEntry(stabs, ty, lo, hi);
    }
  }

  /** The address is bumped past an exact hit, so an entry one above it is taken for it. */
  lemma NextAddressConfuses(ty: int, addr: Address)
    requires addr < 0xFFFF_FFFE
    ensures var stabs := [Stab(ty, addr), Stab(ty, addr + 1)];
      Sorted(stabs, ty, 0, 1) && Bracket(stabs, ty, addr, 0, 1) == (1, 1) && stabs[1].n_value > addr
  {
    var stabs := [Stab(ty, addr), Stab(ty, addr + 1)];
    var s0 := Search(0, 1, addr, 0, 1, false);
    var s1 := Search(0, 1, addr + 1, 0, 1, true);
    var s2 := Search(1, 1, addr + 1, 0, 1, true);
    var s3 := Search(1, 1, addr + 2, 1, 1, true);
    var s4 := Search(2, 1, addr + 2, 1, 1, true);
    assert LastOfType(stabs, ty, 0, 0) == 0 && LastOfType(stabs, ty, 1, 1) == 1;
    assert Advance(stabs, ty, s0) == s1 && Advance(stabs, ty, s1) == s2;
    assert Advance(stabs, ty, s2) == s3 && Advance(stabs, ty, s3) == s4;
    assert Complete(stabs, ty, s4) == s4;
    assert Complete(stabs, ty, s3) == s4;
    assert Complete(stabs, ty, s2) == s4;
    assert Complete(stabs, ty, s1) == s4;
  }

  /** The search as the kernel runs it, for every table, sorted or not. */
  method StabBinsearch(stabs: seq<Stab>, regionLeft: int, regionRight: int, ty: int, addr0: Address)
    returns (left: int, right: int)
    requires 0 <= regionLeft <= regionRight + 1 <= |stabs|
    ensures (left, right) == Bracket(stabs, ty, addr0, regionLeft, regionRight)
  {
    hide HitsLeftEnd, Complete;
    left, right := regionLeft, regionRight;
    var l, r, any, addr := left, right, false, addr0;
    ghost var start := Search(l, r, addr, left, right, any);
    ghost var s := start;
    while l <= r
      invariant s == Search(l, r, addr, left, right, any) && InTable(stabs, s) && right == r && 0 <= left
      invariant Complete(stabs, ty, start) == Complete(stabs, ty, s)
      decreases r - l, if HitsLeftEnd(stabs, ty, addr, l, r) then 1 else 0
    {
      OneTurn(stabs, ty, s);
      var mid := (l + r) / 2;
      var m := mid;
      while m >= l && stabs[m].n_type != ty
        invariant l - 1 <= m <= mid
        invariant LastOfType(stabs, ty, l, mid) == LastOfType(stabs, ty, l, m)
      {
        m := m - 1;
      }
      s := Advance(stabs, ty, s);
      if m < l {
        l := mid + 1;
        continue;
      }
      any := true;
      if stabs[m].n_value < addr {
        left := m;
        l := mid + 1;
      } else if stabs[m].n_value > addr {
        right := m - 1;
        r := m - 1;
      } else {
        left := m;
        l := m;
        addr := Bump(addr);
      }
    }
    OneTurn(stabs, ty, s);
    if !any {
      right := left - 1;
    } else {
      l := right;
      while l > left && stabs[l].n_type != ty
        invariant ScanBack(stabs, ty, left, l) == ScanBack(stabs, ty, left, right)
        decreases l - left
      {
        l := l - 1;
      }
      left := l;
    }
  }

  lemma OneTurn(stabs: seq<Stab>, ty: int, s: Search)
    requires InTable(stabs, s)
    ensures Complete(stabs, ty, s) == if s.l > s.r then s else Complete(stabs, ty, Advance(stabs, ty, s))
  {
  }

  // -------------------------------------------------- the nested searches of debuginfo_eip

  /**
   The search for the source file runs over the whole table, whose entry 0 is a header.  A result of 0
   means exactly that no file starts at or below the address.
   */
  lemma FileSearchExactly(stabs: seq<Stab>, addr: Address)
    requires stabs != [] && !Is(stabs, N_SO, 0) && Searchable(stabs, N_SO, addr, 0, |stabs| - 1)
    ensures var (lfile, rfile) := Bracket(stabs, N_SO, addr, 0, |stabs| - 1);
      && 0 <= lfile <= rfile + 1 <= |stabs|
      && (lfile == 0 <==> LastLow(stabs, N_SO, addr, 0, |stabs| - 1) < 0)
      && (lfile != 0 ==>
            && 0 < lfile <= rfile && lfile == LastLow(stabs, N_SO, addr, 0, |stabs| - 1)
            && Is(stabs, N_SO, lfile) && stabs[lfile].n_value <= addr
            && NoEntry(stabs, N_SO, lfile + 1, rfile)
            && (rfile + 1 < |stabs| ==> High(stabs, N_SO, addr, rfile + 1)))
  {
    hide Bracket, Searchable;
    SearchFinds(stabs, N_SO, addr, 0, |stabs| - 1);
    var low := LastLow(stabs, N_SO, addr, 0, |stabs| - 1);
    if low >= 0 {
      BracketContains(stabs, N_SO, addr, 0, |stabs| - 1, low);
    }
  }

  /**
   The search for the function inside the file's bracket: when the file has a function at or below the
   address, the result is that function, nested in the file's bracket.  When all its functions are
   above, the test lfun <= rfun still succeeds, with the file's own entry in the function's place.
   */
  lemma FunctionSearchExactly(stabs: seq<Stab>, addr: Address, lfile: int, rfile: int)
    requires 0 < lfile <= rfile < |stabs| && Is(stabs, N_SO, lfile)
    requires Searchable(stabs, N_FUN, addr, lfile, rfile)
    ensures var (lfun, rfun) := Bracket(stabs, N_FUN, addr, lfile, rfile);
      var low := LastLow(stabs, N_FUN, addr, lfile, rfile);
      && (lfun <= rfun <==> !NoEntry(stabs, N_FUN, lfile, rfile))
      && (low >= lfile ==> lfile < lfun == low && rfun <= rfile && stabs[lfun].n_type == N_FUN)
      && (low < lfile && lfun <= rfun ==> lfun == lfile && stabs[lfun].n_type == N_SO)
  {
    hide Bracket, Searchable;
    SearchFinds(stabs, N_FUN, addr, lfile, rfile);
    var low := LastLow(stabs, N_FUN, addr, lfile, rfile);
    if low >= lfile {
      BracketContains(stabs, N_FUN, addr, lfile, rfile, low);
      assert Is(stabs, N_FUN, low);
    } else {
      var high := FirstHigh(stabs, N_FUN, addr, lfile, rfile);
      assert !Is(stabs, N_FUN, lfile);
    }
  }

  /**
   Both searches: without a file at or below the address the lookup fails.  Otherwise the function search
   stays within the last such file, up to the next one; it gives the last function at or below the
   address, or the file's own entry if the file has functions but all are above, or an empty bracket
   exactly if it has none.
   */
  lemma NestedSearches(stabs: seq<Stab>, addr: Address)
    requires stabs != [] && !Is(stabs, N_SO, 0) && Searchable(stabs, N_SO, addr, 0, |stabs| - 1)
    requires var (lfile, rfile) := Bracket(stabs, N_SO, addr, 0, |stabs| - 1);
      lfile != 0 ==> Searchable(stabs, N_FUN, addr, lfile, rfile)
    ensures var (lfile, rfile) := Bracket(stabs, N_SO, addr, 0, |stabs| - 1);
      && (lfile == 0 <==> LastLow(stabs, N_SO, addr, 0, |stabs| - 1) < 0)
      && (lfile != 0 ==>
            && lfile == LastLow(stabs, N_SO, addr, 0, |stabs| - 1) <= rfile < |stabs|
            && NoEntry(stabs, N_SO, lfile + 1, rfile)
            && var (lfun, rfun) := Bracket(stabs, N_FUN, addr, lfile, rfile);
            var low := LastLow(stabs, N_FUN, addr, lfile, rfile);
            && (low >= lfile ==> lfile < lfun == low && lfun <= rfun <= rfile)
            && (lfun > rfun <==> NoEntry(stabs, N_FUN, lfile, rfile))
            && (lfun <= rfun && low < lfile ==> lfun == lfile))
  {
    FileSearchExactly(stabs, addr);
    var (lfile, rfile) := Bracket(stabs, N_SO, addr, 0, |stabs| - 1);
    if lfile != 0 {
      FunctionSearchExactly(stabs, addr, lfile, rfile);
    }
  }
}
