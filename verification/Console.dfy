/** The text screen: a window of 25 rows that scrolls over an unbounded terminal. */
module Console {
  const CRT_COLS := 80
  const CRT_SIZE := 2000

  /** A screen cell: attribute in the high byte, character in the low one. */
  type Cell = x: int | 0 <= x < 0x1_0000

  const BLANK: Cell := 0x0720

  // -------------------------------------------------- the terminal behind the window

  /**
   A terminal of unbounded length.  Cells are numbered row by row from the top; those never written are
   blank.  The window shows the 25 rows from row `base` on.
   */
  datatype Terminal = Terminal(cells: map<int, Cell>, cursor: nat, base: nat)

  function CellAt(t: Terminal, p: int): Cell {
    if p in t.cells then t.cells[p] else BLANK
  }

  /** Rows scroll into view as the cursor goes below the window; the window never moves up. */
  function Follow(t: Terminal): Terminal {
    if t.cursor / 80 >= t.base + 25 then t.(base := t.cursor / 80 - 24) else t
  }

  function Typed(t: Terminal, c: Cell): Terminal {
    t.(cells := t.cells[t.cursor as int := c], cursor := t.cursor + 1)
  }

  function Type(t: Terminal, c: Cell): Terminal {
    Follow(Typed(t, c))
  }

  /** Without an attribute a character is white on black.  Characters are the C program's ints. */
  function WithAttribute(c: int): int {
    if c / 256 == 0 then c + 0x0700 else c
  }

  function RowStart(p: nat): nat {
    p - p % 80
  }

  /** A character other than a tab, before the window follows the cursor; a backspace stops at the window's top. */
  function WriteStill(t: Terminal, c0: int): Terminal
    requires c0 % 256 != 9
  {
    var c := WithAttribute(c0);
    var low := c % 256;
    if low == 8 then
      if t.cursor > 80 * t.base
      then t.(cursor := t.cursor - 1, cells := t.cells[t.cursor - 1 := (c - low + 32) % 0x1_0000])
      else t
    else if low == 10 then t.(cursor := RowStart(t.cursor + 80))
    else if low == 13 then t.(cursor := RowStart(t.cursor))
    else Typed(t, c % 0x1_0000)
  }

  /** What writing one character does; a tab is five blanks, and the window follows each of them. */
  function Write(t: Terminal, c: int): Terminal {
    if c % 256 == 9 then Type(Type(Type(Type(Type(t, BLANK), BLANK), BLANK), BLANK), BLANK)
    else Follow(WriteStill(t, c))
  }

  /** The cursor is in the window and nothing below the window has been written. */
  ghost predicate TerminalOk(t: Terminal) {
    && 80 * t.base <= t.cursor < 80 * t.base + 2000
    && forall p :: p in t.cells ==> 0 <= p < 80 * t.base + 2000
  }

  /** At most one row too far down. */
  ghost predicate NearlyOk(t: Terminal) {
    && 80 * t.base <= t.cursor < 80 * t.base + 2080
    && forall p :: p in t.cells ==> 0 <= p < 80 * t.base + 2000
  }

  lemma FollowRestores(t: Terminal)
    requires NearlyOk(t)
    ensures TerminalOk(Follow(t)) && t.base <= Follow(t).base <= t.base + 1
  {
  }

  lemma TypeKeepsOk(t: Terminal, c: Cell)
    requires TerminalOk(t)
    ensures TerminalOk(Type(t, c)) && t.base <= Type(t, c).base <= t.base + 1
  {
    FollowRestores(Typed(t, c));
  }

  lemma WriteKeepsOk(t: Terminal, c: int)
    requires TerminalOk(t)
    ensures TerminalOk(Write(t, c)) && t.base <= Write(t, c).base
  {
    hide TerminalOk, Type;
    if c % 256 == 9 {
      var t1 := Type(t, BLANK);
      var t2 := Type(t1, BLANK);
      var t3 := Type(t2, BLANK);
      var t4 := Type(t3, BLANK);
      TypeKeepsOk(t, BLANK);
      TypeKeepsOk(t1, BLANK);
      TypeKeepsOk(t2, BLANK);
      TypeKeepsOk(t3, BLANK);
      TypeKeepsOk(t4, BLANK);
    } else {
      PlainKeepsOk(t, c);
    }
  }

  lemma PlainKeepsOk(t: Terminal, c: int)
    requires TerminalOk(t) && c % 256 != 9
    ensures TerminalOk(Write(t, c)) && t.base <= Write(t, c).base <= t.base + 1
  {
    hide Follow;
    RowStarts(t.cursor, t.base);
    RowStarts(t.cursor + 80, t.base);
    FollowRestores(WriteStill(t, c));
  }

  lemma BlankIsTyped(t: Terminal)
    ensures Write(t, 32) == Type(t, BLANK)
  {
  }

  lemma FiveBlanks(t: Terminal, c: int)
    requires c % 256 == 9
    ensures Write(Write(Write(Write(Write(t, 32), 32), 32), 32), 32) == Write(t, c)
  {
    hide Type;
    BlankIsTyped(t);
    var t1 := Type(t, BLANK);
    BlankIsTyped(t1);
    var t2 := Type(t1, BLANK);
    BlankIsTyped(t2);
    var t3 := Type(t2, BLANK);
    BlankIsTyped(t3);
    BlankIsTyped(Type(t3, BLANK));
  }

  /** Giving a character its attribute first changes nothing. */
  lemma AttributeOnce(t: Terminal, c: int)
    requires c % 256 != 9 && TerminalOk(t)
    ensures WithAttribute(WithAttribute(c)) == WithAttribute(c) && WithAttribute(c) % 256 == c % 256
    ensures Write(t, c) == Follow(WriteStill(t, WithAttribute(c))) && NearlyOk(WriteStill(t, WithAttribute(c)))
    ensures WriteStill(t, WithAttribute(c)).base == t.base
  {
    hide Follow;
    RowStarts(t.cursor, t.base);
    RowStarts(t.cursor + 80, t.base);
  }

  lemma NoScroll(t: Terminal)
    requires TerminalOk(t)
    ensures Follow(t) == t && NearlyOk(t)
  {
  }

  function WriteAll(t: Terminal, text: seq<int>): Terminal
    decreases |text|
  {
    if text == [] then t else WriteAll(Write(t, text[0]), text[1..])
  }

  /** A row that has scrolled off the top never changes again. */
  lemma {:induction false} ScrolledOffIsFinal(t: Terminal, text: seq<int>, p: int)
    requires TerminalOk(t) && p < 80 * t.base
    ensures TerminalOk(WriteAll(t, text)) && t.base <= WriteAll(t, text).base
    ensures CellAt(WriteAll(t, text), p) == CellAt(t, p)
    decreases |text|
  {
    if text != [] {
      var n := Write(t, text[0]);
      WriteKeepsOk(t, text[0]);
      WriteLeavesAbove(t, text[0], p);
      ScrolledOffIsFinal(n, text[1..], p);
    }
  }

  lemma TypeLeavesAbove(t: Terminal, c: Cell, p: int)
    requires p < t.cursor
    ensures CellAt(Type(t, c), p) == CellAt(t, p) && Type(t, c).cursor == t.cursor + 1
  {
  }

  lemma WriteLeavesAbove(t: Terminal, c: int, p: int)
    requires TerminalOk(t) && p < 80 * t.base
    ensures CellAt(Write(t, c), p) == CellAt(t, p)
  {
    hide Type;
    var t1 := Type(t, BLANK);
    var t2 := Type(t1, BLANK);
    var t3 := Type(t2, BLANK);
    var t4 := Type(t3, BLANK);
    TypeLeavesAbove(t, BLANK, p);
    TypeLeavesAbove(t1, BLANK, p);
    TypeLeavesAbove(t2, BLANK, p);
    TypeLeavesAbove(t3, BLANK, p);
    TypeLeavesAbove(t4, BLANK, p);
    TypeLeavesAbove(t, WithAttribute(c) % 0x1_0000, p);
  }

  /** Ordinary characters, none of the four control characters. */
  ghost predicate IsPlain(text: seq<int>) {
    forall i :: 0 <= i < |text| ==> text[i] % 256 !in {8, 9, 10, 13}
  }

  /** A plain character goes to the cursor's cell, and the cells before it keep their content. */
  lemma PlainStep(t: Terminal, c: int, p: int)
    requires c % 256 !in {8, 9, 10, 13}
    ensures Write(t, c).cursor == t.cursor + 1 && CellAt(Write(t, c), t.cursor) == WithAttribute(c) % 0x1_0000
    ensures p < t.cursor ==> CellAt(Write(t, c), p) == CellAt(t, p)
  {
    assert WithAttribute(c) % 256 == c % 256;
  }

  /** Plain text appears on the terminal in order from the cursor on, across rows and scrolls. */
  lemma {:induction false} PlainTextAppears(t: Terminal, text: seq<int>, i: nat)
    requires IsPlain(text) && i < |text|
    ensures WriteAll(t, text).cursor == t.cursor + |text|
    ensures CellAt(WriteAll(t, text), t.cursor + i) == WithAttribute(text[i]) % 0x1_0000
    decreases |text|
  {
    hide Write, CellAt, WithAttribute;
    PlainStep(t, text[0], 0);
    if i > 0 {
      PlainTextAppears(Write(t, text[0]), text[1..], i - 1);
    } else {
      PlainTextKeeps(Write(t, text[0]), text[1..], t.cursor);
    }
  }

  lemma {:induction false} PlainTextKeeps(t: Terminal, text: seq<int>, p: int)
    requires IsPlain(text) && p < t.cursor
    ensures CellAt(WriteAll(t, text), p) == CellAt(t, p) && WriteAll(t, text).cursor == t.cursor + |text|
    decreases |text|
  {
    hide Write, CellAt, WithAttribute;
    if text != [] {
      PlainStep(t, text[0], p);
      PlainTextKeeps(Write(t, text[0]), text[1..], p);
    }
  }

  // -------------------------------------------------- control characters, told by the cells

  /** The cell of a character: without an attribute white on black, otherwise its low 16 bits. */
  lemma CellOfCharacter(c: int)
    ensures 0 <= c < 256 ==> WithAttribute(c) % 0x1_0000 == 0x0700 + c
    ensures !(0 <= c < 256) ==> WithAttribute(c) % 0x1_0000 == c % 0x1_0000
    ensures WithAttribute(c) % 256 == c % 256
  {
  }

  lemma FirstWritten(t: Terminal, c: int, text: seq<int>)
    ensures WriteAll(t, [c] + text) == WriteAll(Write(t, c), text)
  {
    assert ([c] + text)[1..] == text;
  }

  /** After a newline text goes to the start of the next row; every cell above that row is kept. */
  lemma NewlineThenText(t: Terminal, c: int, text: seq<int>, i: nat, p: int)
    requires c % 256 == 10 && IsPlain(text) && i < |text|
    ensures var after := WriteAll(t, [c] + text); var start := 80 * (t.cursor / 80 + 1);
      && after.cursor == start + |text|
      && CellAt(after, start + i) == WithAttribute(text[i]) % 0x1_0000
      && (p < start ==> CellAt(after, p) == CellAt(t, p))
  {
    hide Write, WriteAll, CellAt, WithAttribute;
    FirstWritten(t, c, text);
    RowMoves(t, c);
    PlainTextAppears(Write(t, c), text, i);
    if p < 80 * (t.cursor / 80 + 1) {
      PlainTextKeeps(Write(t, c), text, p);
    }
  }

  /** After a carriage return text goes to the start of the same row. */
  lemma ReturnThenText(t: Terminal, c: int, text: seq<int>, i: nat, p: int)
    requires c % 256 == 13 && IsPlain(text) && i < |text|
    ensures var after := WriteAll(t, [c] + text); var start := 80 * (t.cursor / 80);
      && after.cursor == start + |text|
      && CellAt(after, start + i) == WithAttribute(text[i]) % 0x1_0000
      && (p < start ==> CellAt(after, p) == CellAt(t, p))
  {
    hide Write, WriteAll, CellAt, WithAttribute;
    FirstWritten(t, c, text);
    RowMoves(t, c);
    PlainTextAppears(Write(t, c), text, i);
    if p < 80 * (t.cursor / 80) {
      PlainTextKeeps(Write(t, c), text, p);
    }
  }

  lemma RowMoves(t: Terminal, c: int)
    ensures c % 256 == 10 ==> Write(t, c).cursor == 80 * (t.cursor / 80 + 1)
    ensures c % 256 == 13 ==> Write(t, c).cursor == 80 * (t.cursor / 80)
    ensures c % 256 == 10 || c % 256 == 13 ==> forall p :: CellAt(Write(t, c), p) == CellAt(t, p)
  {
    CellOfCharacter(c);
    assert RowStart(t.cursor) == 80 * (t.cursor / 80);
    assert RowStart(t.cursor + 80) == 80 * ((t.cursor + 80) / 80);
  }

  /**
   A backspace takes the last character back: the cursor is where it was, on a blank that has the
   backspace's own attribute.  At the window's first cell it does nothing.
   */
  lemma BackspaceErases(t: Terminal, x: int, b: int, p: int)
    requires TerminalOk(t) && x % 256 !in {8, 9, 10, 13} && b % 256 == 8
    ensures var after := WriteAll(t, [x, b]);
      && after.cursor == t.cursor
      && CellAt(after, t.cursor) == (if 0 <= b < 256 then 0x0720 else b % 0x1_0000 + 24)
      && (p < t.cursor ==> CellAt(after, p) == CellAt(t, p))
    ensures t.cursor == 80 * t.base ==> Write(t, b) == t
  {
    hide Write, CellAt, WithAttribute, TerminalOk;
    TwoWritten(t, x, b);
    PlainStep(t, x, p);
    WriteKeepsOk(t, x);
    BackspaceInWindow(t, x);
    BackspaceStep(Write(t, x), b);
    BackspaceStops(t, b);
  }

  lemma TwoWritten(t: Terminal, x: int, b: int)
    ensures WriteAll(t, [x, b]) == Write(Write(t, x), b)
  {
    FirstWritten(t, x, [b]);
    FirstWritten(Write(t, x), b, []);
    assert [x] + [b] == [x, b] && [b] + [] == [b];
  }

  lemma BackspaceInWindow(t: Terminal, x: int)
    requires TerminalOk(t) && x % 256 !in {8, 9, 10, 13}
    ensures Write(t, x).cursor > 80 * Write(t, x).base
  {
    PlainStep(t, x, 0);
  }

  lemma BackspaceStops(t: Terminal, b: int)
    requires TerminalOk(t) && b % 256 == 8
    ensures t.cursor == 80 * t.base ==> Write(t, b) == t
  {
    NoScroll(t);
    CellOfCharacter(b);
  }

  lemma BackspaceStep(t: Terminal, b: int)
    requires TerminalOk(t) && b % 256 == 8 && t.cursor > 80 * t.base
    ensures Write(t, b).cursor == t.cursor - 1
    ensures CellAt(Write(t, b), t.cursor - 1) == (if 0 <= b < 256 then 0x0720 else b % 0x1_0000 + 24)
    ensures forall p :: p != t.cursor - 1 ==> CellAt(Write(t, b), p) == CellAt(t, p)
  {
    hide WithAttribute, Follow;
    BackspaceCell(b);
    var n := t.(cursor := t.cursor - 1, cells := t.cells[t.cursor - 1 := Blanked(b)]);
    assert WriteStill(t, b) == n;
    NoScroll(n);
  }

  function Blanked(b: int): Cell {
    if 0 <= b < 256 then 0x0720 else (b + 24) % 0x1_0000
  }

  lemma BackspaceCell(b: int)
    requires b % 256 == 8
    ensures var c := WithAttribute(b); c % 256 == 8 && (c - c % 256 + 32) % 0x1_0000 == Blanked(b)
    ensures !(0 <= b < 256) ==> Blanked(b) == b % 0x1_0000 + 24
  {
  }

  /** A tab is five blanks from the cursor on. */
  lemma TabIsFiveBlanks(t: Terminal, c: int, p: int)
    requires c % 256 == 9
    ensures Write(t, c).cursor == t.cursor + 5
    ensures t.cursor <= p < t.cursor + 5 ==> CellAt(Write(t, c), p) == 0x0720
    ensures p < t.cursor ==> CellAt(Write(t, c), p) == CellAt(t, p)
  {
    hide Type, CellAt;
    FiveBlanks(t, c);
    var t1 := Write(t, 32);
    var t2 := Write(t1, 32);
    var t3 := Write(t2, 32);
    var t4 := Write(t3, 32);
    PlainStep(t, 32, p);
    PlainStep(t1, 32, p);
    PlainStep(t2, 32, p);
    PlainStep(t3, 32, p);
    PlainStep(t4, 32, p);
    CellOfCharacter(32);
  }

  /** The window moves only as far as the cursor needs: when it moves, the cursor is in its last row. */
  lemma WindowFollows(t: Terminal, c: int)
    requires TerminalOk(t)
    ensures var n := Write(t, c);
      && t.base <= n.base && 80 * n.base <= n.cursor < 80 * (n.base + 25)
      && (n.base > t.base ==> c % 256 == 9 || n.cursor / 80 == n.base + 24)
  {
    WriteKeepsOk(t, c);
  }

  // -------------------------------------------------- the screen

  /** Moves the buffer one row up and clears the last row. */
  method ScrollUp(buf: array<Cell>)
    requires buf.Length == CRT_SIZE
    modifies buf
    ensures Scrolled(old(buf[..]), buf[..])
  {
    for i := 0 to CRT_SIZE - CRT_COLS
      invariant forall j :: 0 <= j < i ==> buf[j] == old(buf[j + CRT_COLS])
      invariant forall j :: i <= j < CRT_SIZE ==> buf[j] == old(buf[j])
    {
      buf[i] := buf[i + CRT_COLS];
    }
    for i := CRT_SIZE - CRT_COLS to CRT_SIZE
      invariant forall j :: 0 <= j < CRT_SIZE - CRT_COLS ==> buf[j] == old(buf[j + CRT_COLS])
      invariant forall j :: CRT_SIZE - CRT_COLS <= j < i ==> buf[j] == BLANK
    {
      buf[i] := BLANK;
    }
  }

  /** Screen memory and the cursor, a window onto the terminal. */
  class Screen {
    const crtBuf: array<Cell>
    var crtPos: nat
    ghost var term: Terminal

    ghost predicate Valid()
      reads this, crtBuf
    {
      && crtBuf.Length == CRT_SIZE && TerminalOk(term)
      && crtPos == term.cursor - 80 * term.base
      && Shows(crtBuf[..], term)
    }

    constructor (crtBuf: array<Cell>, crtPos: nat)
      requires crtBuf.Length == CRT_SIZE && crtPos < CRT_SIZE
      ensures Valid() && this.crtBuf == crtBuf && this.crtPos == crtPos
      ensures term.base == 0 && term.cursor == crtPos
    {
      this.crtBuf, this.crtPos := crtBuf, crtPos;
      term := Terminal(map p: int | 0 <= p < CRT_SIZE :: crtBuf[p], crtPos, 0);
    }

    /** The end of every call: one row up when the cursor has left the window at the bottom. */
    method ScrollIfNeeded(ghost t: Terminal)
      requires crtBuf.Length == CRT_SIZE && Shows(crtBuf[..], t)
      requires crtPos == t.cursor - 80 * t.base && NearlyOk(t)
      modifies this`crtPos, this`term, crtBuf
      ensures Valid() && term == Follow(t) && crtPos < CRT_SIZE
    {
      hide Shows, Scrolled;
      term := Follow(t);
      if crtPos >= CRT_SIZE {
        ScrollUp(crtBuf);
        crtPos := crtPos - CRT_COLS;
        ScrolledShows(old(crtBuf[..]), crtBuf[..], t);
      }
    }

    /** The switch on the character, a tab left out: stores and moves the cursor, but does not scroll. */
    method PutStill(c: int)
      requires Valid() && c == WithAttribute(c) && c % 256 != 9
      modifies this`crtPos, crtBuf
      ensures Shows(crtBuf[..], WriteStill(term, c))
      ensures crtPos == WriteStill(term, c).cursor - 80 * term.base
    {
      hide Shows;
      ghost var t := WriteStill(term, c);
      if c % 256 == 8 {
        if crtPos > 0 {
          crtPos := crtPos - 1;
          StoredShows(crtBuf[..], term, crtPos, (c - c % 256 + 32) % 0x1_0000);
          crtBuf[crtPos] := (c - c % 256 + 32) % 0x1_0000;
          assert crtBuf[..] == old(crtBuf[..])[crtPos := (c - c % 256 + 32) % 0x1_0000];
          CursorIrrelevant(crtBuf[..], t.(cursor := term.cursor), t);
        }
      } else if c % 256 == 10 || c % 256 == 13 {
        if c % 256 == 10 {
          crtPos := crtPos + CRT_COLS;
        }
        crtPos := crtPos - crtPos % CRT_COLS;
        RowStarts(if c % 256 == 10 then term.cursor + 80 else term.cursor, term.base);
        CursorIrrelevant(crtBuf[..], term, t);
      } else {
        StoredShows(crtBuf[..], term, crtPos, c % 0x1_0000);
        crtBuf[crtPos] := c % 0x1_0000;
        assert crtBuf[..] == old(crtBuf[..])[crtPos := c % 0x1_0000];
        crtPos := crtPos + 1;
      }
    }

    /** Writes one character; a tab is five blanks, each written by a call of its own. */
    method Putc(c0: int)
      requires Valid()
      modifies this, crtBuf
      ensures Valid() && term == Write(old(term), c0)
      ensures crtPos < CRT_SIZE
      decreases if c0 % 256 == 9 then 1 else 0
    {
      hide Shows, Follow, Type, WriteStill, TerminalOk, NearlyOk;
      WriteKeepsOk(term, c0);
      var c := if c0 / 256 == 0 then c0 + 0x0700 else c0;
      if c % 256 == 9 {
        FiveBlanks(term, c0);
        Putc(32);
        Putc(32);
        Putc(32);
        Putc(32);
        Putc(32);
        NoScroll(term);
        ScrollIfNeeded(term);
      } else {
        AttributeOnce(term, c0);
        ghost var t := WriteStill(term, c);
        PutStill(c);
        ScrollIfNeeded(t);
      }
    }

    /** After any text the buffer is the window of the terminal with that text, and the cursor is in it. */
    method PutAll(text: seq<int>)
      requires Valid()
      modifies this, crtBuf
      ensures Valid() && term == WriteAll(old(term), text) && crtPos < CRT_SIZE
    {
      for i := 0 to |text|
        invariant Valid() && WriteAll(term, text[i..]) == WriteAll(old(term), text)
      {
        assert text[i..][1..] == text[i + 1..];
        Putc(text[i]);
      }
    }
  }

  /** The buffer is the window of the terminal. */
  ghost predicate Shows(buf: seq<Cell>, t: Terminal) {
    |buf| == 2000 && forall i :: 0 <= i < 2000 ==> buf[i] == CellAt(t, 80 * t.base + i)
  }

  ghost predicate Scrolled(was: seq<Cell>, buf: seq<Cell>) {
    && |buf| == |was| == 2000
    && (forall j :: 0 <= j < 1920 ==> buf[j] == was[j + 80])
    && forall j :: 1920 <= j < 2000 ==> buf[j] == BLANK
  }

  lemma ScrolledShows(was: seq<Cell>, buf: seq<Cell>, t: Terminal)
    requires Shows(was, t) && NearlyOk(t)
    requires Scrolled(was, buf)
    ensures Shows(buf, t.(base := t.base + 1))
  {
    forall i | 0 <= i < 2000
      ensures buf[i] == CellAt(t, 80 * (t.base + 1) + i)
    {
      if i < 1920 {
        assert buf[i] == was[i + 80];
      }
    }
  }

  lemma StoredShows(buf: seq<Cell>, t: Terminal, i: nat, c: Cell)
    requires Shows(buf, t) && i < 2000
    ensures Shows(buf[i := c], t.(cells := t.cells[80 * t.base + i := c]))
    ensures Shows(buf[i := c], t.(cells := t.cells[80 * t.base + i := c], cursor := t.cursor + 1))
  {
  }

  lemma CursorIrrelevant(buf: seq<Cell>, t: Terminal, t': Terminal)
    requires Shows(buf, t) && t' == t.(cursor := t'.cursor)
    ensures Shows(buf, t')
  {
  }

  /** The start of a row, counted from the top of the window. */
  lemma RowStarts(p: nat, base: nat)
    requires 80 * base <= p
    ensures 80 * base <= RowStart(p) && RowStart(p) - 80 * base == (p - 80 * base) - (p - 80 * base) % 80
  {
    assert (p - 80 * base) % 80 == p % 80;
  }
}
