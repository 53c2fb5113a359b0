/**
 What single format fields print, told by reading the text back and by its length: the printer and the
 number parser against each other through whole formats.
 */
module Formats {
  import opened Numerals
  import opened Printf

  // -------------------------------------------------- writing a field

  /** A field; no width or precision is 0. */
  datatype Field = Field(flags: seq<char>, width: nat, precision: nat, longs: nat, conv: char)

  predicate IsFlag(c: char) {
    c == '-' || c == '0' || c == '#'
  }

  /** Nothing the scanner would take for more of the field. */
  predicate Ends(c: char) {
    !IsFlag(c) && !IsDigit(c) && c != '*' && c != '.' && c != 'l' && c != NUL
  }

  ghost predicate IsField(f: Field) {
    (forall i :: 0 <= i < |f.flags| ==> IsFlag(f.flags[i])) && Ends(f.conv)
  }

  function WidthText(n: nat): seq<char> {
    if n == 0 then [] else Digits(n, 10)
  }

  function PrecisionText(n: nat): seq<char> {
    if n == 0 then [] else ['.'] + Digits(n, 10)
  }

  /** The field as it stands in a format. */
  function Written(f: Field): seq<char> {
    ['%'] + f.flags + WidthText(f.width) + PrecisionText(f.precision) + Repeat('l', f.longs) + [f.conv]
  }

  /** A format of just this field. */
  function Alone(f: Field): seq<char> {
    Written(f) + [NUL]
  }

  /** The last '-' or '0' among the flags is the padding character, a blank if there is none. */
  function Padding(flags: seq<char>, padc: char): char
    decreases |flags|
  {
    if flags == [] then padc else Padding(flags[1..], if flags[0] == '#' then padc else flags[0])
  }

  function SpecOf(f: Field): Spec {
    Spec(Padding(f.flags, ' '),
      if f.width > 0 then f.width else if f.precision > 0 then 0 else -1,
      if f.precision > 0 then f.precision else -1,
      f.longs, '#' in f.flags)
  }

  // -------------------------------------------------- the scanner reads what was written

  /** t is in fmt at i, and something follows it. */
  ghost predicate At(fmt: seq<char>, i: nat, t: seq<char>) {
    i + |t| < |fmt| && fmt[i..i + |t|] == t
  }

  lemma AtParts(fmt: seq<char>, i: nat, a: seq<char>, b: seq<char>)
    requires At(fmt, i, a + b)
    ensures At(fmt, i, a) && At(fmt, i + |a|, b)
    ensures b != [] ==> fmt[i + |a|] == b[0]
  {
    assert fmt[i..i + |a| + |b|][..|a|] == fmt[i..i + |a|];
    assert fmt[i..i + |a| + |b|][|a|..] == fmt[i + |a|..i + |a| + |b|];
    if b != [] {
      assert fmt[i..i + |a| + |b|][|a|] == fmt[i + |a|];
    }
  }

  lemma AtFirst(fmt: seq<char>, i: nat, t: seq<char>)
    requires At(fmt, i, t)
    ensures i + |t| < |fmt| && (t != [] ==> fmt[i] == t[0])
  {
    assert [] + t == t;
    AtParts(fmt, i, [], t);
  }

  lemma {:induction false} ScanFlags(fmt: seq<char>, i: nat, t: seq<char>, ap: Args, used: nat, spec: Spec)
    requires IsCString(fmt) && At(fmt, i, t) && forall k :: 0 <= k < |t| ==> IsFlag(t[k])
    ensures ScanEscape(fmt, i, ap, used, spec)
         == ScanEscape(fmt, i + |t|, ap, used, spec.(padc := Padding(t, spec.padc), alt := spec.alt || '#' in t))
    decreases |t|
  {
    hide ScanEscape, At, IsCString, Padding;
    AtFirst(fmt, i, t);
    PaddingStep(t, spec.padc);
    if t != [] {
      assert t == [t[0]] + t[1..];
      AtParts(fmt, i, [t[0]], t[1..]);
      ScanTurn(fmt, i, ap, used, spec);
      var next := if t[0] == '#' then spec.(alt := true) else spec.(padc := t[0]);
      ScanFlags(fmt, i + 1, t[1..], ap, used, next);
    } else {
      assert spec.(padc := spec.padc, alt := spec.alt || '#' in t) == spec;
    }
  }

  lemma PaddingStep(t: seq<char>, padc: char)
    ensures t == [] ==> Padding(t, padc) == padc
    ensures t != [] ==> Padding(t, padc) == Padding(t[1..], if t[0] == '#' then padc else t[0])
    ensures t != [] ==> ('#' in t <==> t[0] == '#' || '#' in t[1..])
  {
    assert t != [] ==> t == [t[0]] + t[1..];
  }

  lemma {:induction false} NumberReads(fmt: seq<char>, i: nat, t: seq<char>, val: int)
    requires At(fmt, i, t) && AllDigits(t, 10) && !IsDigit(fmt[i + |t|])
    ensures Number(fmt, i, val) == (Value(t, 10, val), i + |t|)
    decreases |t|
  {
    hide At;
    AtFirst(fmt, i, t);
    if t != [] {
      assert t == [t[0]] + t[1..];
      AtParts(fmt, i, [t[0]], t[1..]);
      NumberReads(fmt, i + 1, t[1..], val * 10 + DigitValue(t[0]));
    }
  }

  /** A positive number becomes the width, or the precision if there is a width. */
  lemma ScanDigits(fmt: seq<char>, i: nat, n: nat, ap: Args, used: nat, spec: Spec)
    requires IsCString(fmt) && n > 0 && At(fmt, i, Digits(n, 10)) && !IsDigit(fmt[i + |Digits(n, 10)|])
    ensures ScanEscape(fmt, i, ap, used, spec)
         == ScanEscape(fmt, i + |Digits(n, 10)|, ap, used, WithNumber(spec, n))
  {
    hide ScanEscape, Digits, WithNumber, At, Number, IsCString;
    var d := Digits(n, 10);
    FirstDigit(n);
    AtFirst(fmt, i, d);
    assert d == [d[0]] + d[1..];
    AtParts(fmt, i, [d[0]], d[1..]);
    NumberReads(fmt, i + 1, d[1..], d[0] as int - '0' as int);
    ScanTurn(fmt, i, ap, used, spec);
  }

  lemma FirstDigit(n: nat)
    requires n > 0
    ensures var d := Digits(n, 10);
      '1' <= d[0] <= '9' && AllDigits(d[1..], 10) && Value(d[1..], 10, d[0] as int - '0' as int) == n
  {
    hide Digits;
    DigitsDenote(n, 10);
    assert DigitValue(Digits(n, 10)[0]) < 10;
  }

  lemma {:induction false} ScanLongs(fmt: seq<char>, i: nat, n: nat, ap: Args, used: nat, spec: Spec)
    requires IsCString(fmt) && At(fmt, i, Repeat('l', n))
    ensures ScanEscape(fmt, i, ap, used, spec) == ScanEscape(fmt, i + n, ap, used, spec.(lflag := spec.lflag + n))
    decreases n
  {
    hide ScanEscape, At, IsCString, Repeat;
    AtFirst(fmt, i, Repeat('l', n));
    if n > 0 {
      RepeatFront('l', n);
      AtParts(fmt, i, ['l'], Repeat('l', n - 1));
      ScanTurn(fmt, i, ap, used, spec);
      ScanLongs(fmt, i + 1, n - 1, ap, used, spec.(lflag := spec.lflag + 1));
    }
  }

  lemma ScanWidth(fmt: seq<char>, i: nat, n: nat, ap: Args, used: nat, spec: Spec)
    requires IsCString(fmt) && At(fmt, i, WidthText(n)) && !IsDigit(fmt[i + |WidthText(n)|])
    requires spec.width < 0 && spec.precision == -1
    ensures ScanEscape(fmt, i, ap, used, spec)
         == ScanEscape(fmt, i + |WidthText(n)|, ap, used, if n > 0 then spec.(width := n) else spec)
  {
    hide ScanEscape;
    if n > 0 {
      ScanDigits(fmt, i, n, ap, used, spec);
    }
  }

  lemma ScanPrecision(fmt: seq<char>, i: nat, n: nat, ap: Args, used: nat, spec: Spec)
    requires IsCString(fmt) && At(fmt, i, PrecisionText(n)) && !IsDigit(fmt[i + |PrecisionText(n)|])
    ensures ScanEscape(fmt, i, ap, used, spec)
         == ScanEscape(fmt, i + |PrecisionText(n)|, ap, used,
              if n > 0 then spec.(width := if spec.width < 0 then 0 else spec.width, precision := n) else spec)
  {
    hide ScanEscape, Digits, At, IsCString;
    if n > 0 {
      AtFirst(fmt, i, PrecisionText(n));
      AtParts(fmt, i, ['.'], Digits(n, 10));
      AtFirst(fmt, i + 1, Digits(n, 10));
      ScanTurn(fmt, i, ap, used, spec);
      ScanDigits(fmt, i + 1, n, ap, used, if spec.width < 0 then spec.(width := 0) else spec);
    }
  }

  /** The pieces of a field, one behind the other. */
  lemma Pieces(fmt: seq<char>, i: nat, f: Field)
    requires IsField(f) && At(fmt, i, Written(f))
    ensures var i1 := i + 1 + |f.flags|; var i2 := i1 + |WidthText(f.width)|;
      var i3 := i2 + |PrecisionText(f.precision)|; var i4 := i3 + f.longs;
      && fmt[i] == '%' && At(fmt, i + 1, f.flags) && At(fmt, i1, WidthText(f.width))
      && At(fmt, i2, PrecisionText(f.precision)) && At(fmt, i3, Repeat('l', f.longs))
      && i4 < |fmt| && fmt[i4] == f.conv && i4 + 1 == i + |Written(f)|
      && !IsDigit(fmt[i2]) && !IsDigit(fmt[i3])
  {
    hide At, IsField, WidthText, PrecisionText, Repeat;
    IsFieldEnds(f);
    NextIsNoDigit(f);
    var w, p, l := WidthText(f.width), PrecisionText(f.precision), Repeat('l', f.longs);
    Regroup(f.flags, w, p, l, [f.conv]);
    AtFirst(fmt, i, Written(f));
    var rest := f.flags + (w + (p + (l + [f.conv])));
    AtParts(fmt, i, ['%'], rest);
    FivePieces(fmt, i + 1, f.flags, w, p, l, [f.conv]);
  }

  lemma FivePieces(fmt: seq<char>, i: nat, a: seq<char>, b: seq<char>, c: seq<char>, d: seq<char>, e: seq<char>)
    requires At(fmt, i, a + (b + (c + (d + e)))) && e != []
    ensures At(fmt, i, a) && At(fmt, i + |a|, b) && At(fmt, i + |a| + |b|, c)
    ensures At(fmt, i + |a| + |b| + |c|, d) && i + |a| + |b| + |c| + |d| < |fmt|
    ensures fmt[i + |a| + |b|] == (c + (d + e))[0] && fmt[i + |a| + |b| + |c|] == (d + e)[0]
    ensures fmt[i + |a| + |b| + |c| + |d|] == e[0]
  {
    hide At;
    var de := d + e;
    var cde := c + de;
    var bcde := b + cde;
    AtParts(fmt, i, a, bcde);
    AtParts(fmt, i + |a|, b, cde);
    AtParts(fmt, i + |a| + |b|, c, de);
    AtParts(fmt, i + |a| + |b| + |c|, d, e);
  }

  lemma IsFieldEnds(f: Field)
    requires IsField(f)
    ensures Ends(f.conv) && forall i :: 0 <= i < |f.flags| ==> IsFlag(f.flags[i])
  {
  }

  lemma Regroup(a: seq<char>, b: seq<char>, c: seq<char>, d: seq<char>, e: seq<char>)
    ensures ['%'] + a + b + c + d + e == ['%'] + (a + (b + (c + (d + e))))
    ensures |['%'] + a + b + c + d + e| == 1 + |a| + |b| + |c| + |d| + |e|
  {
  }

  lemma NextIsNoDigit(f: Field)
    requires Ends(f.conv)
    ensures var p, l := PrecisionText(f.precision), Repeat('l', f.longs);
      !IsDigit((l + [f.conv])[0]) && !IsDigit((p + (l + [f.conv]))[0])
  {
    hide Digits;
  }

  /** In any format, the scanner gets out of a field what was put into it. */
  lemma ScanReads(fmt: seq<char>, i: nat, f: Field, ap: Args, used: nat)
    requires IsCString(fmt) && IsField(f) && At(fmt, i, Written(f))
    ensures fmt[i] == '%'
    ensures ScanEscape(fmt, i + 1, ap, used, PLAIN) == Escape(SpecOf(f), f.conv, i + |Written(f)|, used)
  {
    hide ScanEscape, At, Written, WidthText, PrecisionText, Repeat, Padding, IsCString, IsField;
    IsFieldEnds(f);
    Pieces(fmt, i, f);
    var i1 := i + 1 + |f.flags|;
    var i2 := i1 + |WidthText(f.width)|;
    var i3 := i2 + |PrecisionText(f.precision)|;
    var s1 := PLAIN.(padc := Padding(f.flags, ' '), alt := '#' in f.flags);
    ScanFlags(fmt, i + 1, f.flags, ap, used, PLAIN);
    assert PLAIN.alt || '#' in f.flags <==> '#' in f.flags;
    ScanWidth(fmt, i1, f.width, ap, used, s1);
    var s2 := if f.width > 0 then s1.(width := f.width) else s1;
    ScanPrecision(fmt, i2, f.precision, ap, used, s2);
    var s3 := s2.(width := SpecOf(f).width, precision := SpecOf(f).precision);
    ScanLongs(fmt, i3, f.longs, ap, used, s3);
    ScanTurn(fmt, i3 + f.longs, ap, used, SpecOf(f));
  }

  /** A field prints its conversion, and the format goes on behind it. */
  lemma RenderField(fmt: seq<char>, i: nat, f: Field, ap: Args, used: nat)
    requires IsCString(fmt) && IsField(f) && IsConversion(f.conv) && At(fmt, i, Written(f))
    ensures var next := i + |Written(f)|;
      && next < |fmt|
      && Render(fmt, i, ap, used)
           == Convert(SpecOf(f), f.conv, ap(used)) + Render(fmt, next, ap, if f.conv == '%' then used else used + 1)
  {
    hide ScanEscape, Written, Convert, SpecOf, IsConversion;
    ScanReads(fmt, i, f, ap, used);
  }

  lemma RenderAlone(f: Field, ap: Args)
    requires IsField(f) && IsConversion(f.conv)
    ensures IsCString(Alone(f)) && Render(Alone(f), 0, ap, 0) == Convert(SpecOf(f), f.conv, ap(0))
  {
    hide Convert, Digits, Render, SpecOf, IsConversion;
    var fmt := Alone(f);
    NoNul(f);
    assert fmt[0..|Written(f)|] == Written(f);
    RenderField(fmt, 0, f, ap, 0);
    RenderEnd(fmt, |Written(f)|, ap, if f.conv == '%' then 0 else 1);
    assert Convert(SpecOf(f), f.conv, ap(0)) + [] == Convert(SpecOf(f), f.conv, ap(0));
  }

  lemma RenderEnd(fmt: seq<char>, i: nat, ap: Args, used: nat)
    requires IsCString(fmt) && i < |fmt| && fmt[i] == NUL
    ensures Render(fmt, i, ap, used) == []
  {
  }

  lemma NoNul(f: Field)
    requires IsField(f)
    ensures IsCString(Alone(f))
  {
    hide Digits;
    DigitsPlain(f.width, 10);
    DigitsPlain(f.precision, 10);
  }

  /** What a field prints does not depend on what is around it; every field but "%%" takes one argument. */
  lemma FieldsAreIndependent(fmt: seq<char>, i: nat, f: Field, ap: Args, used: nat)
    requires IsCString(fmt) && IsField(f) && IsConversion(f.conv) && At(fmt, i, Written(f))
    ensures IsCString(Alone(f)) && i + |Written(f)| < |fmt|
    ensures Render(fmt, i, ap, used)
         == Render(Alone(f), 0, (n: nat) => ap(used + n), 0)
            + Render(fmt, i + |Written(f)|, ap, if f.conv == '%' then used else used + 1)
  {
    hide Convert, Render, Written, SpecOf;
    RenderField(fmt, i, f, ap, used);
    RenderAlone(f, (n: nat) => ap(used + n));
  }
}
