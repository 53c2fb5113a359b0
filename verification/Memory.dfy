/** Block moves and fills in memory, byte by byte and word by word, for every overlap. */
module Memory {
  type Byte = bv8

  /** Byte j when bytes lo..hi of a move from s to d have been done. */
  function MovedByte(mem: seq<Byte>, d: nat, s: nat, lo: nat, hi: nat, j: nat): Byte
    requires j < |mem| && s + hi <= |mem|
  {
    if d + lo <= j < d + hi then mem[s + (j - d)] else mem[j]
  }

  /** Memory after the n bytes at s have been moved to d, as if through a copy. */
  function Moved(mem: seq<Byte>, d: nat, s: nat, n: nat): (r: seq<Byte>)
    requires d + n <= |mem| && s + n <= |mem|
    ensures |r| == |mem|
    ensures r[d..d + n] == mem[s..s + n] && r[..d] == mem[..d] && r[d + n..] == mem[d + n..]
  {
    seq(|mem|, j requires 0 <= j < |mem| => MovedByte(mem, d, s, 0, n, j))
  }

  /** Memory with the n bytes at d set to c. */
  function Filled(mem: seq<Byte>, d: nat, n: nat, c: Byte): (r: seq<Byte>)
    requires d + n <= |mem|
    ensures |r| == |mem|
    ensures (forall j :: d <= j < d + n ==> r[j] == c) && r[..d] == mem[..d] && r[d + n..] == mem[d + n..]
  {
    seq(|mem|, j requires 0 <= j < |mem| => if d <= j < d + n then c else mem[j])
  }

  /** Bytes lo..hi of the target hold what the source held at first; the rest is as it was. */
  ghost predicate Partly(before: seq<Byte>, mem: seq<Byte>, d: nat, s: nat, lo: nat, hi: nat) {
    && |mem| == |before| && d + hi <= |mem| && s + hi <= |mem| && lo <= hi
    && forall j: nat :: j < |mem| ==> mem[j] == MovedByte(before, d, s, lo, hi, j)
  }

  lemma PartlyNone(mem: seq<Byte>, d: nat, s: nat, k: nat)
    requires d + k <= |mem| && s + k <= |mem|
    ensures Partly(mem, mem, d, s, k, k)
  {
  }

  lemma PartlyAll(before: seq<Byte>, mem: seq<Byte>, d: nat, s: nat, n: nat)
    requires Partly(before, mem, d, s, 0, n)
    ensures mem == Moved(before, d, s, n)
  {
  }

  lemma ByteUp(before: seq<Byte>, mem: seq<Byte>, d: nat, s: nat, k: nat)
    requires Partly(before, mem, d, s, 0, k) && d + k < |mem| && s + k < |mem| && !(s < d < s + k + 1)
    ensures Partly(before, mem[d + k := mem[s + k]], d, s, 0, k + 1)
  {
    assert mem[s + k] == before[s + k];
  }

  lemma ByteDown(before: seq<Byte>, mem: seq<Byte>, d: nat, s: nat, k: nat, n: nat)
    requires Partly(before, mem, d, s, k + 1, n) && s < d
    ensures Partly(before, mem[d + k := mem[s + k]], d, s, k, n)
  {
    assert mem[s + k] == before[s + k];
  }

  // -------------------------------------------------- string instructions

  /** rep movsb with the direction flag clear. */
  method MoveBytesUp(m: array<Byte>, d: nat, s: nat, n: nat)
    requires d + n <= m.Length && s + n <= m.Length && !(s < d < s + n)
    modifies m
    ensures m[..] == Moved(old(m[..]), d, s, n)
  {
    PartlyNone(m[..], d, s, 0);
    for k := 0 to n
      invariant Partly(old(m[..]), m[..], d, s, 0, k)
    {
      ByteUp(old(m[..]), m[..], d, s, k);
      ghost var was := m[..];
      m[d + k] := m[s + k];
      assert m[..] == was[d + k := was[s + k]];
    }
    PartlyAll(old(m[..]), m[..], d, s, n);
  }

  /** rep movsb with the direction flag set: from the last byte down. */
  method MoveBytesDown(m: array<Byte>, d: nat, s: nat, n: nat)
    requires d + n <= m.Length && s + n <= m.Length && s < d
    modifies m
    ensures m[..] == Moved(old(m[..]), d, s, n)
  {
    PartlyNone(m[..], d, s, n);
    for k := n downto 0
      invariant Partly(old(m[..]), m[..], d, s, k, n)
    {
      ByteDown(old(m[..]), m[..], d, s, k, n);
      ghost var was := m[..];
      m[d + k] := m[s + k];
      assert m[..] == was[d + k := was[s + k]];
    }
    PartlyAll(old(m[..]), m[..], d, s, n);
  }

  /** One word: all four bytes are read before any is written. */
  method MoveWord(m: array<Byte>, d: nat, s: nat)
    requires d + 4 <= m.Length && s + 4 <= m.Length
    modifies m
    ensures m[..] == Moved(old(m[..]), d, s, 4)
  {
    ghost var was := m[..];
    m[d], m[d + 1], m[d + 2], m[d + 3] := m[s], m[s + 1], m[s + 2], m[s + 3];
    WordAsBytes(was, d, s);
    assert m[..] == was[d := was[s]][d + 1 := was[s + 1]][d + 2 := was[s + 2]][d + 3 := was[s + 3]];
  }

  lemma WordAsBytes(mem: seq<Byte>, d: nat, s: nat)
    requires d + 4 <= |mem| && s + 4 <= |mem|
    ensures Moved(mem, d, s, 4) == mem[d := mem[s]][d + 1 := mem[s + 1]][d + 2 := mem[s + 2]][d + 3 := mem[s + 3]]
  {
  }

  lemma WordUp(before: seq<Byte>, mem: seq<Byte>, d: nat, s: nat, k: nat)
    requires Partly(before, mem, d, s, 0, 4 * k) && d + 4 * k + 4 <= |mem| && s + 4 * k + 4 <= |mem|
    requires (d as int - s as int) % 4 == 0 && !(s < d < s + 4 * k + 4)
    ensures Partly(before, Moved(mem, d + 4 * k, s + 4 * k, 4), d, s, 0, 4 * (k + 1))
  {
    var after := Moved(mem, d + 4 * k, s + 4 * k, 4);
    forall j: nat | j < |mem|
      ensures after[j] == MovedByte(before, d, s, 0, 4 * (k + 1), j)
    {
      assert after[j] == MovedByte(mem, d + 4 * k, s + 4 * k, 0, 4, j);
      if d + 4 * k <= j < d + 4 * k + 4 {
        assert mem[s + (j - d)] == before[s + (j - d)];
      }
    }
  }

  lemma WordDown(before: seq<Byte>, mem: seq<Byte>, d: nat, s: nat, k: nat, n: nat)
    requires 4 * (k + 1) <= n && Partly(before, mem, d, s, 4 * (k + 1), n)
    requires (d as int - s as int) % 4 == 0 && s < d
    ensures Partly(before, Moved(mem, d + 4 * k, s + 4 * k, 4), d, s, 4 * k, n)
  {
    var after := Moved(mem, d + 4 * k, s + 4 * k, 4);
    forall j: nat | j < |mem|
      ensures after[j] == MovedByte(before, d, s, 4 * k, n, j)
    {
      assert after[j] == MovedByte(mem, d + 4 * k, s + 4 * k, 0, 4, j);
      if d + 4 * k <= j < d + 4 * k + 4 {
        assert mem[s + (j - d)] == before[s + (j - d)];
      }
    }
  }

  /** rep movsl upwards.  The words do not straddle: target and source are whole words apart. */
  method MoveWordsUp(m: array<Byte>, d: nat, s: nat, words: nat)
    requires d + 4 * words <= m.Length && s + 4 * words <= m.Length && !(s < d < s + 4 * words)
    requires (d as int - s as int) % 4 == 0
    modifies m
    ensures m[..] == Moved(old(m[..]), d, s, 4 * words)
  {
    PartlyNone(m[..], d, s, 0);
    for k := 0 to words
      invariant Partly(old(m[..]), m[..], d, s, 0, 4 * k)
    {
      WordUp(old(m[..]), m[..], d, s, k);
      MoveWord(m, d + 4 * k, s + 4 * k);
    }
    PartlyAll(old(m[..]), m[..], d, s, 4 * words);
  }

  /** rep movsl downwards, from the last word. */
  method MoveWordsDown(m: array<Byte>, d: nat, s: nat, words: nat)
    requires d + 4 * words <= m.Length && s + 4 * words <= m.Length && s < d
    requires (d as int - s as int) % 4 == 0
    modifies m
    ensures m[..] == Moved(old(m[..]), d, s, 4 * words)
  {
    PartlyNone(m[..], d, s, 4 * words);
    for k := words downto 0
      invariant Partly(old(m[..]), m[..], d, s, 4 * k, 4 * words)
    {
      WordDown(old(m[..]), m[..], d, s, k, 4 * words);
      MoveWord(m, d + 4 * k, s + 4 * k);
    }
    PartlyAll(old(m[..]), m[..], d, s, 4 * words);
  }

  /** Addresses that are multiples of four are whole words apart. */
  lemma AlignedDistance(d: int, s: int)
    requires d % 4 == 0 && s % 4 == 0
    ensures (d - s) % 4 == 0
  {
  }

  // -------------------------------------------------- memmove

  /** The form in use: words when both ends and the length allow it, downwards when the target is inside the source. */
  method Memmove(m: array<Byte>, dst: nat, src: nat, n: nat)
    requires dst + n <= m.Length && src + n <= m.Length
    modifies m
    ensures m[..] == Moved(old(m[..]), dst, src, n)
  {
    var s, d := src, dst;
    if s < d && s + n > d {
      s, d := s + n, d + n;
      if s % 4 == 0 && d % 4 == 0 && n % 4 == 0 {
        AlignedDistance(d, s);
        MoveWordsDown(m, dst, src, n / 4);
      } else {
        MoveBytesDown(m, dst, src, n);
      }
    } else {
      if s % 4 == 0 && d % 4 == 0 && n % 4 == 0 {
        AlignedDistance(d, s);
        MoveWordsUp(m, d, s, n / 4);
      } else {
        MoveBytesUp(m, d, s, n);
      }
    }
  }

  /** The portable form, with moving pointers and a counter that runs out.  It does the same. */
  method MemmovePortable(m: array<Byte>, dst: nat, src: nat, n0: nat)
    requires dst + n0 <= m.Length && src + n0 <= m.Length
    modifies m
    ensures m[..] == Moved(old(m[..]), dst, src, n0)
  {
    var s, d, n := src, dst, n0;
    if s < d && s + n > d {
      s, d := s + n, d + n;
      while n > 0
        invariant 0 <= n <= n0 && s == src + n && d == dst + n
        invariant Partly(old(m[..]), m[..], dst, src, n, n0)
      {
        n, s, d := n - 1, s - 1, d - 1;
        ByteDown(old(m[..]), m[..], dst, src, n, n0);
        ghost var was := m[..];
        m[d] := m[s];
        assert m[..] == was[d := was[s]];
      }
    } else {
      while n > 0
        invariant 0 <= n <= n0 && s == src + (n0 - n) && d == dst + (n0 - n)
        invariant Partly(old(m[..]), m[..], dst, src, 0, n0 - n)
      {
        ByteUp(old(m[..]), m[..], dst, src, n0 - n);
        ghost var was := m[..];
        m[d] := m[s];
        assert m[..] == was[d := was[s]];
        n, s, d := n - 1, s + 1, d + 1;
      }
    }
    PartlyAll(old(m[..]), m[..], dst, src, n0);
  }

  /**
   Moving a block away and back restores memory exactly when the target's bytes outside the source
   already equalled the bytes moved there.
   */
  lemma MoveBack(mem: seq<Byte>, d: nat, s: nat, n: nat)
    requires d + n <= |mem| && s + n <= |mem|
    ensures Moved(Moved(mem, d, s, n), s, d, n)[s..s + n] == mem[s..s + n]
    ensures Moved(Moved(mem, d, s, n), s, d, n) == mem <==>
      forall j :: d <= j < d + n && !(s <= j < s + n) ==> mem[j] == mem[s + (j - d)]
  {
    var once := Moved(mem, d, s, n);
    var twice := Moved(once, s, d, n);
    assert once[d..d + n] == mem[s..s + n];
    assert twice[s..s + n] == mem[s..s + n];
    forall j | 0 <= j < |mem|
      ensures twice[j] ==
        if s <= j < s + n then mem[j] else if d <= j < d + n then mem[s + (j - d)] else mem[j]
    {
    }
    if forall j :: d <= j < d + n && !(s <= j < s + n) ==> mem[j] == mem[s + (j - d)] {
      assert twice == mem;
    }
  }

  // -------------------------------------------------- memset

  /** The fill byte in all four bytes of a word. */
  function Spread(c: bv32): bv32 {
    (c << 24) | (c << 16) | (c << 8) | c
  }

  /** Byte k of a word, as it is stored at address k. */
  function ByteOf(w: bv32, k: nat): Byte
    requires k < 4
  {
    if k == 0 then (w & 0xFF) as bv8
    else if k == 1 then ((w >> 8) & 0xFF) as bv8
    else if k == 2 then ((w >> 16) & 0xFF) as bv8
    else ((w >> 24) & 0xFF) as bv8
  }

  lemma SpreadBytes(c: bv32, k: nat)
    requires k < 4
    ensures ByteOf(Spread(c & 0xFF), k) == (c & 0xFF) as bv8
  {
  }

  lemma FillMore(before: seq<Byte>, mem: seq<Byte>, d: nat, n: nat, c: Byte)
    requires d + n < |before| && mem == Filled(before, d, n, c)
    ensures mem[d + n := c] == Filled(before, d, n + 1, c)
  {
  }

  lemma FillWord(before: seq<Byte>, mem: seq<Byte>, d: nat, n: nat, c: Byte)
    requires d + n + 4 <= |before| && mem == Filled(before, d, n, c)
    ensures mem[d + n := c][d + n + 1 := c][d + n + 2 := c][d + n + 3 := c] == Filled(before, d, n + 4, c)
  {
    FillMore(before, mem, d, n, c);
    FillMore(before, mem[d + n := c], d, n + 1, c);
    FillMore(before, mem[d + n := c][d + n + 1 := c], d, n + 2, c);
    FillMore(before, mem[d + n := c][d + n + 1 := c][d + n + 2 := c], d, n + 3, c);
  }

  /** rep stosb. */
  method StoreBytes(m: array<Byte>, v: nat, c: Byte, n: nat)
    requires v + n <= m.Length
    modifies m
    ensures m[..] == Filled(old(m[..]), v, n, c)
  {
    for k := 0 to n
      invariant m[..] == Filled(old(m[..]), v, k, c)
    {
      FillMore(old(m[..]), m[..], v, k, c);
      ghost var was := m[..];
      m[v + k] := c;
      assert m[..] == was[v + k := c];
    }
  }

  /** rep stosl of a word whose four bytes are equal. */
  method StoreWords(m: array<Byte>, v: nat, w: bv32, words: nat, ghost c: Byte)
    requires v + 4 * words <= m.Length
    requires ByteOf(w, 0) == c && ByteOf(w, 1) == c && ByteOf(w, 2) == c && ByteOf(w, 3) == c
    modifies m
    ensures m[..] == Filled(old(m[..]), v, 4 * words, c)
  {
    for k := 0 to words
      invariant m[..] == Filled(old(m[..]), v, 4 * k, c)
    {
      ghost var was := m[..];
      FillWord(old(m[..]), was, v, 4 * k, c);
      var at := v + 4 * k;
      m[at], m[at + 1], m[at + 2], m[at + 3] := ByteOf(w, 0), ByteOf(w, 1), ByteOf(w, 2), ByteOf(w, 3);
      assert m[..] == was[at := c][at + 1 := c][at + 2 := c][at + 3 := c];
    }
  }

  /** Fills with the low byte of c: by words when address and length allow it. */
  method Memset(m: array<Byte>, v: nat, c: bv32, n: nat)
    requires v + n <= m.Length
    modifies m
    ensures m[..] == Filled(old(m[..]), v, n, (c & 0xFF) as bv8)
  {
    if n == 0 {
      return;
    }
    if v % 4 == 0 && n % 4 == 0 {
      SpreadBytes(c, 0);
      SpreadBytes(c, 1);
      SpreadBytes(c, 2);
      SpreadBytes(c, 3);
      StoreWords(m, v, Spread(c & 0xFF), n / 4, (c & 0xFF) as bv8);
    } else {
      StoreBytes(m, v, (c & 0xFF) as bv8, n);
    }
  }

  /** The portable form: a counter that runs below zero. */
  method MemsetPortable(m: array<Byte>, v: nat, c: bv32, n: nat)
    requires v + n <= m.Length
    modifies m
    ensures m[..] == Filled(old(m[..]), v, n, (c & 0xFF) as bv8)
  {
    var p, left := v, n - 1;
    while left >= 0
      invariant -1 <= left < n && p == v + (n - 1 - left)
      invariant m[..] == Filled(old(m[..]), v, n - 1 - left, (c & 0xFF) as bv8)
    {
      FillMore(old(m[..]), m[..], v, n - 1 - left, (c & 0xFF) as bv8);
      ghost var was := m[..];
      m[p] := (c & 0xFF) as bv8;
      assert m[..] == was[p := (c & 0xFF) as bv8];
      p, left := p + 1, left - 1;
    }
  }
}
