/** Printing a number in a base and reading it back: printnum and strtol. */
module Numerals {
  const NUL := '\0'

  /** A C string: it ends at its only NUL. */
  ghost predicate IsCString(s: seq<char>) {
    s != [] && forall i :: 0 <= i < |s| ==> (s[i] == NUL <==> i == |s| - 1)
  }

  function Repeat(c: char, n: int): (s: seq<char>)
    ensures |s| == (if n > 0 then n else 0) && forall i :: 0 <= i < |s| ==> s[i] == c
  {
    if n <= 0 then [] else Repeat(c, n - 1) + [c]
  }

  lemma RepeatFront(c: char, n: int)
    requires n > 0
    ensures Repeat(c, n) == [c] + Repeat(c, n - 1)
  {
  }

  // -------------------------------------------------- the printer

  function DigitChar(d: nat): char
    requires d < 16
  {
    "0123456789abcdef"[d]
  }

  /** The canonical numeral: no leading zero unless it is the only digit. */
  function Digits(num: nat, base: nat): (s: seq<char>)
    requires 2 <= base <= 16
    ensures |s| > 0
    decreases num
  {
    if num < base then [DigitChar(num)]
    else DivShrinks(num, base); Digits(num / base, base) + [DigitChar(num % base)]
  }

  lemma DivShrinks(num: nat, base: nat)
    requires 2 <= base <= num
    ensures 0 < num / base < num && num == base * (num / base) + num % base
  {
    var q := num / base;
    Product(base, q);
  }

  lemma Product(base: int, q: int)
    requires base >= 2
    ensures q >= 0 ==> base * q >= 2 * q
    ensures q <= 0 ==> base * q <= 0
  {
  }

  /** The numeral, padded on the left to the given width. */
  function Padded(num: nat, base: nat, width: int, padc: char): seq<char>
    requires 2 <= base <= 16
  {
    Repeat(padc, width - |Digits(num, base)|) + Digits(num, base)
  }

  lemma PaddedStep(num: nat, base: nat, width: int, padc: char)
    requires 2 <= base <= 16
    ensures 0 <= num % base < base
    ensures num < base ==> Padded(num, base, width, padc) == Repeat(padc, width - 1) + [DigitChar(num % base)]
    ensures num >= base ==>
      && 0 < num / base < num
      && Padded(num, base, width, padc) == Padded(num / base, base, width - 1, padc) + [DigitChar(num % base)]
  {
    hide DigitChar, Repeat;
    if num >= base {
      DivShrinks(num, base);
      MoreDigits(num, base);
    } else {
      assert num % base == num;
    }
  }

  lemma MoreDigits(num: nat, base: nat)
    requires 2 <= base <= 16 && num >= base && num / base < num
    ensures 0 <= num % base < base
    ensures Digits(num, base) == Digits(num / base, base) + [DigitChar(num % base)]
  {
  }

  /**
   Where the characters go: a buffer with room for `limit` of them.  All are counted, those that do
   not fit are dropped.  The ghost stream holds every character ever put, and `before` what the buffer
   held at first.
   */
  class Sink {
    const buf: array<char>
    const limit: nat
    ghost const before: seq<char>
    var pos: nat
    var cnt: nat
    ghost var stream: seq<char>

    ghost predicate Valid()
      reads this, buf
    {
      && limit <= buf.Length
      && cnt == |stream|
      && pos == (if |stream| < limit then |stream| else limit)
      && |before| == buf.Length && buf[..] == stream[..pos] + before[pos..]
    }

    constructor (buf: array<char>, limit: nat)
      requires limit <= buf.Length
      ensures Valid() && stream == [] && this.buf == buf && this.limit == limit && before == buf[..]
    {
      this.buf, this.limit, this.before := buf, limit, buf[..];
      pos, cnt, stream := 0, 0, [];
    }

    twostate predicate Wrote(text: seq<char>)
      reads this, buf
    {
      Valid() && stream == old(stream) + text
    }

    method Put(c: char)
      requires Valid()
      modifies this, buf
      ensures Wrote([c])
    {
      cnt := cnt + 1;
      stream := stream + [c];
      if pos < limit {
        buf[pos] := c;
        pos := pos + 1;
        assert stream[..pos] == old(stream)[..pos - 1] + [c];
        assert before[pos - 1..][1..] == before[pos..];
      } else {
        assert stream[..pos] == old(stream)[..pos];
      }
    }
  }

  /** The padding before the first digit. */
  method PutPadding(out: Sink, width: int, padc: char)
    requires out.Valid()
    modifies out, out.buf
    ensures out.Wrote(Repeat(padc, width - 1))
  {
    var w := width - 1;
    ghost var n := 0;
    while w > 0
      invariant if width <= 1 then w == width - 1 && n == 0 else w + n == width - 1 && 0 <= n < width
      invariant out.Wrote(Repeat(padc, n))
    {
      out.Put(padc);
      w := w - 1;
      n := n + 1;
    }
  }

  /** Prints the padding and then the digits, the most significant ones first, recursively. */
  method PrintNum(out: Sink, num: nat, base: nat, width: int, padc: char)
    requires 2 <= base <= 16 && out.Valid()
    modifies out, out.buf
    ensures out.Wrote(Padded(num, base, width, padc))
    decreases num
  {
    hide Padded, DigitChar;
    PaddedStep(num, base, width, padc);
    var q, r := num / base, num % base;
    if num >= base {
      PrintNum(out, q, base, width - 1, padc);
    } else {
      PutPadding(out, width, padc);
    }
    out.Put(DigitChar(r));
  }

  // -------------------------------------------------- the parser

  predicate IsBlank(c: char) {
    c == ' ' || c == '\t'
  }

  /** The value of a digit or letter, 36 for any other character. */
  function DigitValue(c: char): (d: nat)
    ensures d <= 36
  {
    if '0' <= c <= '9' then c as int - '0' as int
    else if 'a' <= c <= 'z' then c as int - 'a' as int + 10
    else if 'A' <= c <= 'Z' then c as int - 'A' as int + 10
    else 36
  }

  function SkipBlanks(s: seq<char>, i: nat): (j: nat)
    requires i <= |s|
    ensures i <= j <= |s| && (j < |s| ==> !IsBlank(s[j]))
    ensures forall k :: i <= k < j ==> IsBlank(s[k])
    decreases |s| - i
  {
    if i < |s| && IsBlank(s[i]) then SkipBlanks(s, i + 1) else i
  }

  /** The digits from i on, accumulated onto val, and where they end. */
  function ReadDigits(s: seq<char>, i: nat, base: nat, val: int): (r: (int, nat))
    requires i <= |s|
    ensures i <= r.1 <= |s|
    decreases |s| - i
  {
    if i < |s| && DigitValue(s[i]) < base && DigitValue(s[i]) < 36
    then ReadDigits(s, i + 1, base, val * base + DigitValue(s[i]))
    else (val, i)
  }

  predicate HexPrefix(s: seq<char>, i: nat, base: nat) {
    (base == 0 || base == 16) && i + 1 < |s| && s[i] == '0' && s[i + 1] == 'x'
  }

  /** What follows the blanks and the sign: an optional prefix, which settles base 0, and digits. */
  function ReadUnsigned(s: seq<char>, i: nat, base: nat): (r: (int, nat))
    requires i <= |s|
    ensures i <= r.1 <= |s|
  {
    if HexPrefix(s, i, base) then ReadDigits(s, i + 2, 16, 0)
    else if base == 0 && i < |s| && s[i] == '0' then ReadDigits(s, i + 1, 8, 0)
    else ReadDigits(s, i, if base == 0 then 10 else base, 0)
  }

  /** The number read from s and the index at which reading stopped. */
  function ReadNumber(s: seq<char>, base: nat): (r: (int, nat))
    ensures r.1 <= |s|
  {
    var i := SkipBlanks(s, 0);
    if i < |s| && s[i] == '+' then ReadUnsigned(s, i + 1, base)
    else if i < |s| && s[i] == '-' then
      var (val, end) := ReadUnsigned(s, i + 1, base);
      (-val, end)
    else ReadUnsigned(s, i, base)
  }

  /** strtol on a C string never moves past the NUL. */
  method Strtol(s: seq<char>, base0: nat) returns (val: int, end: nat)
    requires IsCString(s)
    ensures (val, end) == ReadNumber(s, base0) && end < |s|
  {
    hide ReadDigits;
    var neg, base, i := false, base0, 0;
    val := 0;
    while IsBlank(s[i])
      invariant i < |s| && SkipBlanks(s, 0) == SkipBlanks(s, i)
      decreases |s| - i
    {
      i := i + 1;
    }
    if s[i] == '+' {
      i := i + 1;
    } else if s[i] == '-' {
      i := i + 1;
      neg := true;
    }
    ghost var start := i;
    if (base == 0 || base == 16) && s[i] == '0' && s[i + 1] == 'x' {
      i := i + 2;
      base := 16;
    } else if base == 0 && s[i] == '0' {
      i := i + 1;
      base := 8;
    } else if base == 0 {
      base := 10;
    }
    assert ReadUnsigned(s, start, base0) == ReadDigits(s, i, base, 0);
    val, end := DigitLoop(s, i, base);
    if neg {
      val := -val;
    }
  }

  /** The loop over the digits. */
  method DigitLoop(s: seq<char>, i0: nat, base: nat) returns (val: int, i: nat)
    requires IsCString(s) && i0 < |s|
    ensures (val, i) == ReadDigits(s, i0, base, 0) && i < |s|
  {
    val, i := 0, i0;
    while true
      invariant i < |s|
      invariant ReadDigits(s, i0, base, 0) == ReadDigits(s, i, base, val)
      decreases |s| - i
    {
      var dig: nat;
      if '0' <= s[i] <= '9' {
        dig := s[i] as int - '0' as int;
      } else if 'a' <= s[i] <= 'z' {
        dig := s[i] as int - 'a' as int + 10;
      } else if 'A' <= s[i] <= 'Z' {
        dig := s[i] as int - 'A' as int + 10;
      } else {
        break;
      }
      if dig >= base {
        break;
      }
      val := val * base + dig;
      i := i + 1;
    }
  }

  // -------------------------------------------------- reading back what was printed

  /** s[i..] starts with the given digits, and the digits end there. */
  ghost predicate EndsAfter(s: seq<char>, i: nat, t: seq<char>, base: nat) {
    i + |t| < |s| && s[i..i + |t|] == t && DigitValue(s[i + |t|]) >= base
  }

  /** The value of a string of digits, read from the left onto val. */
  function Value(t: seq<char>, base: nat, val: int): int {
    if t == [] then val else Value(t[1..], base, val * base + DigitValue(t[0]))
  }

  ghost predicate AllDigits(t: seq<char>, base: nat) {
    base <= 16 && forall i :: 0 <= i < |t| ==> DigitValue(t[i]) < base
  }

  lemma {:induction false} ReadsDigits(s: seq<char>, i: nat, t: seq<char>, base: nat, val: int)
    requires EndsAfter(s, i, t, base) && AllDigits(t, base)
    ensures ReadDigits(s, i, base, val) == (Value(t, base, val), i + |t|)
    decreases |t|
  {
    if t != [] {
      assert s[i] == s[i..i + |t|][0] == t[0];
      assert s[i + 1..i + |t|] == s[i..i + |t|][1..] == t[1..];
      ReadsDigits(s, i + 1, t[1..], base, val * base + DigitValue(t[0]));
    }
  }

  lemma {:induction false} ValueAppend(t: seq<char>, c: char, base: nat, val: int)
    ensures Value(t + [c], base, val) == Value(t, base, val) * base + DigitValue(c)
    decreases |t|
  {
    if t == [] {
      assert [c][1..] == [];
      assert Value([c], base, val) == Value([], base, val * base + DigitValue(c));
    } else {
      assert (t + [c])[1..] == t[1..] + [c];
      ValueAppend(t[1..], c, base, val * base + DigitValue(t[0]));
    }
  }

  lemma DigitRoundTrip(d: nat)
    requires d < 16
    ensures DigitValue(DigitChar(d)) == d && DigitChar(d) != NUL && DigitChar(d) != 'x'
    ensures !IsBlank(DigitChar(d)) && DigitChar(d) != '+' && DigitChar(d) != '-'
    ensures DigitChar(d) == '0' <==> d == 0
  {
  }

  /** The numeral is made of digits of the base, has the value of the number, and no leading zero. */
  lemma {:induction false} DigitsDenote(num: nat, base: nat)
    requires 2 <= base <= 16
    ensures AllDigits(Digits(num, base), base) && Value(Digits(num, base), base, 0) == num
    ensures Digits(num, base)[0] == '0' <==> num == 0
    ensures forall c :: c in Digits(num, base) ==> exists d: nat :: d < 16 && c == DigitChar(d)
    decreases num
  {
    if num < base {
      DigitRoundTrip(num);
      assert Value([DigitChar(num)], base, 0) == Value([DigitChar(num)][1..], base, num);
    } else {
      DivShrinks(num, base);
      DigitsDenote(num / base, base);
      DigitRoundTrip(num % base);
      ValueAppend(Digits(num / base, base), DigitChar(num % base), base, 0);
      MulComm(base, num / base);
    }
  }

  lemma MulComm(a: int, b: int)
    ensures a * b == b * a
  {
  }

  lemma {:induction false} LeadingZeros(n: nat, t: seq<char>, base: nat)
    requires AllDigits(t, base) && base > 0
    ensures AllDigits(Repeat('0', n) + t, base) && Value(Repeat('0', n) + t, base, 0) == Value(t, base, 0)
    decreases n
  {
    if n == 0 {
      assert Repeat('0', 0) + t == t;
    } else {
      LeadingZeros(n - 1, t, base);
      RepeatFront('0', n);
      assert (Repeat('0', n) + t)[1..] == Repeat('0', n - 1) + t;
    }
  }

  /** Without a prefix, the digits up to the NUL are the number. */
  lemma ReadsPlain(s: seq<char>, i: nat, t: seq<char>, base: nat)
    requires 2 <= base <= 16 && t != [] && AllDigits(t, base) && i + |t| + 1 == |s| && s[i..i + |t|] == t && s[|s| - 1] == NUL
    ensures ReadUnsigned(s, i, base) == (Value(t, base, 0), i + |t|)
  {
    if i + 1 < |s| - 1 {
      assert s[i + 1] == s[i..i + |t|][1] == t[1];
    }
    ReadsDigits(s, i, t, base, 0);
  }

  lemma {:induction false} SkipsPadding(s: seq<char>, i: nat, n: nat)
    requires i <= n < |s| && (forall k :: i <= k < n ==> s[k] == ' ') && !IsBlank(s[n])
    ensures SkipBlanks(s, i) == n
    decreases n - i
  {
    if i < n {
      SkipsPadding(s, i + 1, n);
    }
  }

  lemma DigitsPlain(num: nat, base: nat)
    requires 2 <= base <= 16
    ensures var d := Digits(num, base);
      AllDigits(d, base) && Value(d, base, 0) == num && !IsBlank(d[0]) && d[0] != '+' && d[0] != '-' && NUL !in d
  {
    DigitsDenote(num, base);
    var d := Digits(num, base);
    forall c | c in d
      ensures c != NUL && !IsBlank(c) && c != '+' && c != '-'
    {
      var v: nat :| v < 16 && c == DigitChar(v);
      DigitRoundTrip(v);
    }
    assert d[0] in d;
  }

  /**
   Reading undoes printing, for every width and for blank or zero padding: the number comes back and
   reading stops at the end of the string.
   */
  lemma ReadPrinted(num: nat, base: nat, width: int, padc: char)
    requires 2 <= base <= 16 && (padc == ' ' || padc == '0')
    ensures var p := Padded(num, base, width, padc);
      IsCString(p + [NUL]) && ReadNumber(p + [NUL], base) == (num, |p|)
  {
    hide ReadNumber, Digits;
    var d := Digits(num, base);
    DigitsPlain(num, base);
    if padc == ' ' {
      ReadsBlankPadded(Repeat(padc, width - |d|), d, base);
    } else {
      ReadsZeroPadded(Repeat(padc, width - |d|), d, base);
    }
  }

  lemma ReadsBlankPadded(pad: seq<char>, d: seq<char>, base: nat)
    requires 2 <= base <= 16 && d != [] && AllDigits(d, base) && (forall i :: 0 <= i < |pad| ==> pad[i] == ' ')
    requires !IsBlank(d[0]) && d[0] != '+' && d[0] != '-' && NUL !in d
    ensures IsCString(pad + d + [NUL]) && ReadNumber(pad + d + [NUL], base) == (Value(d, base, 0), |pad + d|)
  {
    hide ReadUnsigned, AllDigits, Value;
    var s := pad + d + [NUL];
    SkipsPadding(s, 0, |pad|);
    assert s[|pad|] == d[0];
    ReadsPlain(s, |pad|, d, base);
  }

  lemma ReadsZeroPadded(pad: seq<char>, d: seq<char>, base: nat)
    requires 2 <= base <= 16 && d != [] && AllDigits(d, base) && (forall i :: 0 <= i < |pad| ==> pad[i] == '0')
    requires !IsBlank(d[0]) && d[0] != '+' && d[0] != '-' && NUL !in d
    ensures IsCString(pad + d + [NUL]) && ReadNumber(pad + d + [NUL], base) == (Value(d, base, 0), |pad + d|)
  {
    hide ReadUnsigned, AllDigits, Value;
    var s := pad + d + [NUL];
    LeadingZeros(|pad|, d, base);
    assert pad == Repeat('0', |pad|);
    assert s[0] == if |pad| > 0 then '0' else d[0];
    ReadsPlain(s, 0, pad + d, base);
  }

  /** What %d prints: the sign before the padding. */
  function SignedText(x: int, width: int, padc: char): seq<char> {
    if x < 0 then ['-'] + Padded(-x, 10, width, padc) else Padded(x, 10, width, padc)
  }

  /**
   Reading undoes %d exactly when nothing comes between sign and digits and no padding looks like a
   sign: without padding, with zeros, for zero itself, or for positive numbers padded with blanks.
   */
  lemma ReadSignedExactly(x: int, width: int, padc: char)
    requires padc == ' ' || padc == '0' || padc == '-'
    ensures var magnitude := if x < 0 then -x else x;
      ReadNumber(SignedText(x, width, padc) + [NUL], 10).0 == x <==>
        width <= |Digits(magnitude, 10)| || padc == '0' || x == 0 || (padc == ' ' && x > 0)
  {
    var n := if x < 0 then -x else x;
    var d := Digits(n, 10);
    var pad := Repeat(padc, width - |d|);
    var s := SignedText(x, width, padc) + [NUL];
    DigitsPlain(n, 10);
    if x >= 0 && padc != '-' {
      ReadPrinted(x, 10, width, padc);
    } else if padc == '0' || |pad| == 0 {
      SignThenDigits(x, width, padc);
    } else if x < 0 {
      assert s[0] == '-' && s[1] == padc;
      assert SkipBlanks(s, 0) == 0;
    } else {
      DashPadding(x, width);
    }
  }

  /** A dash as padding of a non-negative number is read as its sign. */
  lemma DashPadding(x: nat, width: int)
    requires width > |Digits(x, 10)|
    ensures ReadNumber(SignedText(x, width, '-') + [NUL], 10).0 == x <==> x == 0
  {
    var d := Digits(x, 10);
    var pad := Repeat('-', width - |d|);
    var s := SignedText(x, width, '-') + [NUL];
    DigitsPlain(x, 10);
    assert s == pad + d + [NUL] && s[0] == '-';
    assert SkipBlanks(s, 0) == 0;
    if |pad| == 1 {
      ReadsPlain(s, 1, d, 10);
    } else {
      assert s[1] == '-';
    }
  }

  /** A sign directly followed by digits, zeros included, is read as the signed number. */
  lemma SignThenDigits(x: int, width: int, padc: char)
    requires x < 0 || width <= |Digits(x, 10)|
    requires padc == '0' || width <= |Digits(if x < 0 then -x else x, 10)|
    ensures ReadNumber(SignedText(x, width, padc) + [NUL], 10).0 == x
  {
    var n := if x < 0 then -x else x;
    var d := Digits(n, 10);
    var pad := Repeat(padc, width - |d|);
    var s := SignedText(x, width, padc) + [NUL];
    DigitsPlain(n, 10);
    if x < 0 {
      LeadingZeros(|pad|, d, 10);
      assert pad == Repeat('0', |pad|);
      assert s[0] == '-' && SkipBlanks(s, 0) == 0;
      ReadsPlain(s, 1, pad + d, 10);
    } else {
      assert pad == [] && s == d + [NUL];
      assert s[0] == d[0] && SkipBlanks(s, 0) == 0;
      ReadsPlain(s, 0, d, 10);
    }
  }
}
