/** The ring buffer of console input, which never checks whether it is full. */
module InputBuffer {
  const CONSBUFSIZE := 512

  type Byte = x: int | 0 <= x < 256

  // -------------------------------------------------- what the buffer means

  /** Every character stored so far, and for each character taken its place among those. */
  datatype Ring = Ring(stored: seq<Byte>, taken: seq<nat>)

  /** What a device routine delivers: its answers up to the first -1, less the zeros, cut to a byte. */
  function Delivered(answers: seq<int>): seq<Byte>
    decreases |answers|
  {
    if answers == [] || answers[0] == -1 then []
    else if answers[0] == 0 then Delivered(answers[1..])
    else [answers[0] % 256] + Delivered(answers[1..])
  }

  /** How many of the answers are not 0. */
  function Nonzero(answers: seq<int>): nat {
    if answers == [] then 0 else Nonzero(answers[..|answers| - 1]) + if answers[|answers| - 1] == 0 then 0 else 1
  }

  /**
   Of n answers before the first -1, no 0 is stored, and every other one is, in order: its low byte, behind
   as many characters as answers other than 0 came before it.
   */
  lemma {:induction false} DeliveredExactly(answers: seq<int>, n: nat, i: nat)
    requires n <= |answers| && (forall j :: 0 <= j < n ==> answers[j] != -1) && (n == |answers| || answers[n] == -1)
    ensures |Delivered(answers)| == Nonzero(answers[..n])
    ensures i < n && answers[i] != 0 ==>
      Nonzero(answers[..i]) < |Delivered(answers)| && Delivered(answers)[Nonzero(answers[..i])] == answers[i] % 256
    decreases |answers|
  {
    if n > 0 {
      var rest := answers[1..];
      DeliveredExactly(rest, n - 1, if i > 0 then i - 1 else 0);
      NonzeroFront(answers, n);
      if i > 0 && i < n {
        NonzeroFront(answers, i);
      }
    }
  }

  lemma {:induction false} NonzeroFront(answers: seq<int>, i: nat)
    requires 0 < i <= |answers|
    ensures Nonzero(answers[..i]) == Nonzero(answers[1..][..i - 1]) + if answers[0] == 0 then 0 else 1
    decreases i
  {
    assert answers[..i][..i - 1] == answers[..i - 1];
    if i > 1 {
      NonzeroFront(answers, i - 1);
      assert answers[1..][..i - 1][..i - 2] == answers[1..][..i - 2];
    }
  }

  function Arrive(q: Ring, answers: seq<int>): Ring {
    q.(stored := q.stored + Delivered(answers))
  }

  /** The characters stored and not taken; they may be more than the buffer holds. */
  function Pending(q: Ring): int {
    |q.stored| - |q.taken|
  }

  /** The buffer looks empty exactly when a whole number of bufferfuls is pending. */
  ghost predicate LooksEmpty(q: Ring) {
    Pending(q) % 512 == 0
  }

  /** The character the next read finds, counted from the end of what was stored. */
  function Next(q: Ring): int {
    |q.stored| - Pending(q) % 512
  }

  ghost function Take(q: Ring): Ring
    requires InOrder(q)
  {
    if LooksEmpty(q) then q
    else
      NextInRange(q);
      q.(taken := q.taken + [Next(q)])
  }

  /** Characters are taken at most once, in order, and only whole bufferfuls are passed over. */
  ghost predicate InOrder(q: Ring) {
    && |q.taken| <= |q.stored|
    && (forall k :: 0 <= k < |q.taken| ==> k <= q.taken[k] < |q.stored| && (q.taken[k] - k) % 512 == 0)
    && (forall j, k :: 0 <= j < k < |q.taken| ==> q.taken[j] < q.taken[k])
  }

  /** The next character is past every one taken, with whole bufferfuls lost before it. */
  lemma NextInRange(q: Ring)
    requires |q.taken| <= |q.stored| && !LooksEmpty(q)
    ensures |q.taken| <= Next(q) < |q.stored| && Next(q) == |q.taken| + 512 * (Pending(q) / 512)
    ensures |q.stored| - 512 < Next(q)
  {
  }

  lemma ArriveKeepsOrder(q: Ring, answers: seq<int>)
    requires InOrder(q)
    ensures InOrder(Arrive(q, answers))
  {
  }

  lemma TakeKeepsOrder(q: Ring)
    requires InOrder(q)
    ensures InOrder(Take(q))
  {
    if !LooksEmpty(q) {
      NextInRange(q);
      var r := |q.taken|;
      forall j | 0 <= j < r
        ensures q.taken[j] < Next(q)
      {
        LaterIsGreater(q, j);
      }
    }
  }

  lemma LaterIsGreater(q: Ring, j: nat)
    requires InOrder(q) && !LooksEmpty(q) && j < |q.taken|
    ensures q.taken[j] < Next(q)
  {
    var last := |q.taken| - 1;
    NextInRange(q);
    assert q.taken[j] <= q.taken[last];
    var a := (q.taken[last] - last) / 512;
    assert q.taken[last] == last + 512 * a;
    assert Next(q) == last + 1 + 512 * (Pending(q) / 512);
    assert a <= Pending(q) / 512;
  }

  // -------------------------------------------------- runs

  /** A device interrupt, or a read, which polls the serial line and the keyboard first. */
  datatype Event = Interrupt(answers: seq<int>) | Read(serial: seq<int>, keyboard: seq<int>)

  function Poll(q: Ring, serial: seq<int>, keyboard: seq<int>): Ring {
    Arrive(Arrive(q, serial), keyboard)
  }

  ghost function Step(q: Ring, e: Event): (r: Ring)
    requires InOrder(q)
    ensures InOrder(r)
  {
    match e
    case Interrupt(answers) =>
      ArriveKeepsOrder(q, answers);
      Arrive(q, answers)
    case Read(serial, keyboard) =>
      ArriveKeepsOrder(q, serial);
      ArriveKeepsOrder(Arrive(q, serial), keyboard);
      TakeKeepsOrder(Poll(q, serial, keyboard));
      Take(Poll(q, serial, keyboard))
  }

  ghost function After(q: Ring, events: seq<Event>): (r: Ring)
    requires InOrder(q)
    ensures InOrder(r)
    decreases |events|
  {
    if events == [] then q else After(Step(q, events[0]), events[1..])
  }

  ghost predicate ReadKeepsUp(q: Ring) {
    LooksEmpty(q) || Pending(q) < 512
  }

  /** No read takes a character while a bufferful or more is pending. */
  ghost predicate KeepsUp(q: Ring, events: seq<Event>)
    requires InOrder(q)
    decreases |events|
  {
    events != [] ==>
      && (events[0].Read? ==> ReadKeepsUp(Poll(q, events[0].serial, events[0].keyboard)))
      && KeepsUp(Step(q, events[0]), events[1..])
  }

  /** What has been taken is exactly the beginning of what has been stored. */
  ghost predicate NothingLost(q: Ring) {
    forall k :: 0 <= k < |q.taken| ==> q.taken[k] == k
  }

  /** Nothing taken is ever taken back. */
  lemma {:induction false} TakenGrows(q: Ring, events: seq<Event>)
    requires InOrder(q)
    ensures q.taken <= After(q, events).taken && q.stored <= After(q, events).stored
    decreases |events|
  {
    if events != [] {
      TakenGrows(Step(q, events[0]), events[1..]);
    }
  }

  /** Over any run the characters come out first in, first out with none lost exactly when reading keeps up. */
  lemma {:induction false} FirstInFirstOutExactly(q: Ring, events: seq<Event>)
    requires InOrder(q) && NothingLost(q)
    ensures NothingLost(After(q, events)) <==> KeepsUp(q, events)
    decreases |events|
  {
    if events != [] {
      var n := Step(q, events[0]);
      TakenGrows(n, events[1..]);
      if NothingLost(n) {
        FirstInFirstOutExactly(n, events[1..]);
      }
      if events[0].Read? {
        var p := Poll(q, events[0].serial, events[0].keyboard);
        if !LooksEmpty(p) {
          NextInRange(p);
          var r := |q.taken|;
          assert n.taken[r] == Next(p);
          assert Pending(p) / 512 == 0 <==> Pending(p) < 512;
          assert NothingLost(n) <==> Next(p) == r;
          if !NothingLost(n) {
            assert After(n, events[1..]).taken[r] == Next(p);
          }
        }
      }
    }
  }

  // -------------------------------------------------- the buffer

  class Input {
    const buf: array<Byte>
    var rpos: nat
    var wpos: nat
    ghost var ring: Ring

    /** The cursors count modulo the buffer's size, and the buffer holds the characters stored last. */
    ghost predicate Valid()
      reads this, buf
    {
      && buf.Length == CONSBUFSIZE && InOrder(ring)
      && rpos == |ring.taken| % 512 && wpos == |ring.stored| % 512
      && Holds(buf[..], ring.stored)
    }

    constructor (buf: array<Byte>)
      requires buf.Length == CONSBUFSIZE
      ensures Valid() && this.buf == buf && ring == Ring([], [])
    {
      this.buf, rpos, wpos, ring := buf, 0, 0, Ring([], []);
    }

    /** Stores one character over whatever is in the way. */
    method Store(c: int)
      requires Valid()
      modifies this`wpos, this`ring, buf
      ensures Valid() && ring == old(ring).(stored := old(ring).stored + [c % 256])
    {
      hide Holds;
      StoreHolds(buf[..], ring.stored, c % 256);
      buf[wpos] := c % 256;
      assert buf[..] == old(buf[..])[wpos := c % 256];
      ring := ring.(stored := ring.stored + [c % 256]);
      wpos := wpos + 1;
      if wpos == CONSBUFSIZE {
        wpos := 0;
      }
    }

    /** Feeds in what a device routine answers; after its listed answers it answers -1. */
    method Intr(answers: seq<int>)
      requires Valid()
      modifies this`wpos, this`ring, buf
      ensures Valid() && ring == Arrive(old(ring), answers)
    {
      hide Valid, InOrder;
      var i := 0;
      while i < |answers| && answers[i] != -1
        invariant i <= |answers| && Valid() && ring.taken == old(ring.taken)
        invariant ring.stored + Delivered(answers[i..]) == old(ring.stored) + Delivered(answers)
      {
        var c := answers[i];
        i := i + 1;
        assert answers[i - 1..][1..] == answers[i..];
        if c == 0 {
          continue;
        }
        Store(c);
      }
    }

    /** The next character, or 0 when the buffer looks empty. */
    method Getc(serial: seq<int>, keyboard: seq<int>) returns (c: int)
      requires Valid()
      modifies this, buf
      ensures Valid() && ring == Take(Poll(old(ring), serial, keyboard))
      ensures ring.stored == old(ring.stored) + Delivered(serial) + Delivered(keyboard)
      ensures var r, w := |old(ring.taken)|, |ring.stored|;
        if (w - r) % 512 == 0 then c == 0 && ring.taken == old(ring.taken)
        else
          && r <= w - (w - r) % 512 < w && c == ring.stored[w - (w - r) % 512]
          && ring.taken == old(ring.taken) + [w - (w - r) % 512]
    {
      hide Holds, InOrder, Arrive, Delivered, LooksEmpty, Next, Take, Poll;
      Polled(ring, serial, keyboard);
      TakeIs(Poll(ring, serial, keyboard));
      Intr(serial);
      Intr(keyboard);
      TakeFinds(buf[..], ring);
      if rpos != wpos {
        c := buf[rpos];
        ring := Take(ring);
        rpos := rpos + 1;
        if rpos == CONSBUFSIZE {
          rpos := 0;
        }
        return;
      }
      c := 0;
    }
  }

  ghost predicate Holds(buf: seq<Byte>, stored: seq<Byte>) {
    |buf| == 512 && forall k: nat :: k < |stored| <= k + 512 ==> buf[k % 512] == stored[k]
  }

  lemma StoreHolds(buf: seq<Byte>, stored: seq<Byte>, c: Byte)
    requires Holds(buf, stored)
    ensures Holds(buf[|stored| % 512 := c], stored + [c])
  {
  }

  /** A read that finds the buffer not empty takes the next character from the slot at the read cursor. */
  lemma TakeFinds(buf: seq<Byte>, q: Ring)
    requires Holds(buf, q.stored) && InOrder(q)
    ensures |q.taken| % 512 == |q.stored| % 512 <==> LooksEmpty(q)
    ensures LooksEmpty(q) ==> Take(q) == q
    ensures !LooksEmpty(q) ==>
      && 0 <= Next(q) < |q.stored| && |buf| == 512 && buf[|q.taken| % 512] == q.stored[Next(q)]
      && InOrder(Take(q)) && Take(q).stored == q.stored
      && |Take(q).taken| % 512 == if |q.taken| % 512 == 511 then 0 else |q.taken| % 512 + 1
  {
    hide InOrder;
    SameSlot(q);
    if !LooksEmpty(q) {
      TakeKeepsOrder(q);
      Counted(q);
      NextInRange(q);
    }
  }

  lemma TakeIs(q: Ring)
    requires InOrder(q)
    ensures var r, w := |q.taken|, |q.stored|;
      if (w - r) % 512 == 0 then LooksEmpty(q) && Take(q) == q
      else
        && r <= w - (w - r) % 512 < w && !LooksEmpty(q) && Next(q) == w - (w - r) % 512
        && Take(q) == q.(taken := q.taken + [w - (w - r) % 512])
  {
    if !LooksEmpty(q) {
      NextInRange(q);
    }
  }

  lemma Polled(q: Ring, serial: seq<int>, keyboard: seq<int>)
    requires InOrder(q)
    ensures Poll(q, serial, keyboard) == Arrive(Arrive(q, serial), keyboard)
    ensures Poll(q, serial, keyboard) == q.(stored := q.stored + Delivered(serial) + Delivered(keyboard))
    ensures InOrder(Poll(q, serial, keyboard))
  {
    ArriveKeepsOrder(q, serial);
    ArriveKeepsOrder(Arrive(q, serial), keyboard);
  }

  lemma Counted(q: Ring)
    requires InOrder(q)
    ensures |q.taken| <= |q.stored|
  {
  }

  /** The cursors meet exactly when the buffer looks empty, and the read cursor is at the next character. */
  lemma SameSlot(q: Ring)
    requires InOrder(q)
    ensures |q.taken| % 512 == |q.stored| % 512 <==> LooksEmpty(q)
    ensures !LooksEmpty(q) ==> Next(q) % 512 == |q.taken| % 512
  {
    hide InOrder;
    Residues(|q.taken|, |q.stored|);
  }

  lemma Residues(r: int, w: int)
    ensures r % 512 == w % 512 <==> (w - r) % 512 == 0
    ensures (w - (w - r) % 512) % 512 == r % 512
  {
    var k := (w - r) / 512;
    assert w - (w - r) % 512 == r + 512 * k;
  }
}
