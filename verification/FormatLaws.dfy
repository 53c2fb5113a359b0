/** The printer's promises, field by field, with nothing said about how a field is printed. */
module FormatLaws {
  import opened Base
  import opened Numerals
  import opened Printf
  import opened Formats
  import PageManager

  function Max(a: int, b: int): int {
    if a < b then b else a
  }

  /** The flag '0', or no flag. */
  function ZeroFlag(zero: bool): seq<char> {
    if zero then ['0'] else []
  }

  /** The argument of an unsigned conversion: 64 bits with two or more l's, otherwise 32. */
  function UnsignedArg(num: int, longs: nat): nat {
    if longs >= 2 then num % 0x1_0000_0000_0000_0000 else num % 0x1_0000_0000
  }

  /** "%u", "%o" and "%x" print in base 10, 8 and 16. */
  function BaseOf(conv: char): nat {
    if conv == 'u' then 10 else if conv == 'o' then 8 else 16
  }

  lemma WritesAsExpected()
    ensures Written(Field("0", 8, 0, 0, 'x')) == "%08x"
    ensures Written(Field("-", 8, 0, 0, 's')) == "%-8s"
    ensures Written(Field("", 12, 34, 2, 'd')) == "%12.34lld"
    ensures Written(Field("", 0, 0, 0, 'o')) == "%o"
  {
    assert Repeat('l', 2) == ['l', 'l'];
    assert Digits(12, 10) == Digits(1, 10) + ['2'] == "12";
    assert Digits(34, 10) == Digits(3, 10) + ['4'] == "34";
  }

  lemma OneFlag(zero: bool)
    ensures Padding(ZeroFlag(zero), ' ') == (if zero then '0' else ' ') && Padding(['-'], ' ') == '-'
    ensures forall i :: 0 <= i < |ZeroFlag(zero)| ==> IsFlag(ZeroFlag(zero)[i])
  {
    assert ['0'][1..] == [] && ['-'][1..] == [];
  }

  // -------------------------------------------------- numbers

  lemma PaddedLength(num: nat, base: nat, width: int, padc: char)
    requires 2 <= base <= 16
    ensures |Padded(num, base, width, padc)| == Max(width, |Digits(num, base)|)
  {
  }

  /**
   An unsigned number, printed with any width, any precision, any number of l's, with or without zeros,
   reads back in the conversion's base to the end, and is as long as its width or its digits.
   */
  lemma UnsignedReadsBack(zero: bool, width: nat, precision: nat, longs: nat, conv: char, ap: Args)
    requires conv == 'u' || conv == 'o' || conv == 'x'
    ensures var fmt := Alone(Field(ZeroFlag(zero), width, precision, longs, conv));
      var arg := if longs >= 2 then ap(0).num % 0x1_0000_0000_0000_0000 else ap(0).num % 0x1_0000_0000;
      var base := if conv == 'u' then 10 else if conv == 'o' then 8 else 16;
      && IsCString(fmt)
      && var text := Render(fmt, 0, ap, 0);
      && ReadNumber(text + [NUL], base) == (arg, |text|)
      && |text| == Max(width, |Digits(arg, base)|)
  {
    hide Render, Padded, ReadNumber, Digits;
    var f := Field(ZeroFlag(zero), width, precision, longs, conv);
    OneFlag(zero);
    RenderAlone(f, ap);
    var arg, base := UnsignedArg(ap(0).num, longs), BaseOf(conv);
    var padc := if zero then '0' else ' ';
    ReadPrinted(arg, base, SpecOf(f).width, padc);
    PaddedLength(arg, base, SpecOf(f).width, padc);
    DigitsPlain(arg, base);
  }

  /** Hexadecimal letters are lower case. */
  lemma HexIsLowerCase(zero: bool, width: nat, precision: nat, longs: nat, ap: Args, i: nat)
    ensures var fmt := Alone(Field(ZeroFlag(zero), width, precision, longs, 'x'));
      && IsCString(fmt)
      && var text := Render(fmt, 0, ap, 0);
      i < |text| ==> LowerHex(text[i]) || (text[i] == ' ' && !zero)
  {
    hide Render, Digits, Padded;
    var f := Field(ZeroFlag(zero), width, precision, longs, 'x');
    OneFlag(zero);
    RenderAlone(f, ap);
    if i < |Render(Alone(f), 0, ap, 0)| {
      PaddedIsLowerHex(UnsignedArg(ap(0).num, longs), SpecOf(f).width, if zero then '0' else ' ', i);
    }
  }

  predicate LowerHex(c: char) {
    '0' <= c <= '9' || 'a' <= c <= 'f'
  }

  lemma PaddedIsLowerHex(num: nat, width: int, padc: char, i: nat)
    requires i < |Padded(num, 16, width, padc)|
    ensures LowerHex(Padded(num, 16, width, padc)[i]) || Padded(num, 16, width, padc)[i] == padc
  {
    hide Digits, LowerHex, DigitChar;
    var d, pad := Digits(num, 16), Repeat(padc, width - |Digits(num, 16)|);
    DigitsDenote(num, 16);
    if i >= |pad| {
      var c := d[i - |pad|];
      assert c in d;
      var v: nat :| v < 16 && c == DigitChar(v);
      DigitIsLower(v);
    }
  }

  lemma DigitIsLower(v: nat)
    requires v < 16
    ensures LowerHex(DigitChar(v))
  {
  }

  /**
   "%d" reads back as the two's complement argument if and only if no blank comes between its sign and
   its digits.
   */
  lemma SignedReadsBackExactly(zero: bool, width: nat, precision: nat, longs: nat, ap: Args)
    ensures var fmt := Alone(Field(ZeroFlag(zero), width, precision, longs, 'd'));
      var m := if longs >= 2 then 0x1_0000_0000_0000_0000 else 0x1_0000_0000;
      var u := ap(0).num % m;
      var arg := if 2 * u < m then u else u - m;
      && IsCString(fmt)
      && var text := Render(fmt, 0, ap, 0);
      && (ReadNumber(text + [NUL], 10).0 == arg <==> zero || arg >= 0 || width <= |Digits(-arg, 10)|)
      && |text| == if arg < 0 then 1 + Max(width, |Digits(-arg, 10)|) else Max(width, |Digits(arg, 10)|)
  {
    hide Render, Padded, ReadNumber, Digits;
    var f := Field(ZeroFlag(zero), width, precision, longs, 'd');
    OneFlag(zero);
    RenderAlone(f, ap);
    var arg := Signed(ap(0).num, longs);
    var padc := if zero then '0' else ' ';
    ReadSignedExactly(arg, SpecOf(f).width, padc);
    PaddedLength(if arg < 0 then -arg else arg, 10, SpecOf(f).width, padc);
    DigitsPlain(if arg < 0 then -arg else arg, 10);
  }

  /** As wide as asked for, dashes, and then the number. */
  ghost predicate DashesThenNumber(text: seq<char>, arg: nat, base: nat, width: int)
    requires 2 <= base <= 16
  {
    var k := |text| - |Digits(arg, base)|;
    && |text| == Max(width, |Digits(arg, base)|)
    && (forall i :: 0 <= i < k ==> text[i] == '-')
    && ReadNumber(text[k..] + [NUL], base) == (arg, |text| - k)
  }

  /** With the flag '-' numbers are not padded on the right, but with dashes on the left. */
  lemma DashesOnTheLeft(width: nat, precision: nat, longs: nat, conv: char, ap: Args)
    requires conv == 'u' || conv == 'o' || conv == 'x'
    ensures var fmt := Alone(Field(['-'], width, precision, longs, conv));
      var arg := if longs >= 2 then ap(0).num % 0x1_0000_0000_0000_0000 else ap(0).num % 0x1_0000_0000;
      var base := if conv == 'u' then 10 else if conv == 'o' then 8 else 16;
      IsCString(fmt) && DashesThenNumber(Render(fmt, 0, ap, 0), arg, base, width)
  {
    hide Render, ReadNumber, Digits, Padded, DashesThenNumber;
    var f := Field(['-'], width, precision, longs, conv);
    OneFlag(false);
    RenderAlone(f, ap);
    var arg, base := UnsignedArg(ap(0).num, longs), BaseOf(conv);
    DashedText(arg, base, SpecOf(f).width, width);
  }

  lemma DashedText(arg: nat, base: nat, width: int, wanted: nat)
    requires 2 <= base <= 16 && (width == wanted || (wanted == 0 && width <= 0))
    ensures DashesThenNumber(Padded(arg, base, width, '-'), arg, base, wanted)
  {
    hide ReadNumber, Digits;
    var d := Digits(arg, base);
    PaddedLength(arg, base, width, '-');
    ReadPrinted(arg, base, 0, ' ');
    DigitsPlain(arg, base);
    assert Padded(arg, base, 0, ' ') == d;
    assert (Repeat('-', width - |d|) + d)[|Repeat('-', width - |d|)|..] == d;
  }

  /** A pointer is "0x" and 32 bits in hexadecimal. */
  lemma PointerReadsBack(zero: bool, width: nat, precision: nat, longs: nat, ap: Args)
    ensures var fmt := Alone(Field(ZeroFlag(zero), width, precision, longs, 'p'));
      var arg := ap(0).num % 0x1_0000_0000;
      && IsCString(fmt)
      && var text := Render(fmt, 0, ap, 0);
      && |text| == 2 + Max(width, |Digits(arg, 16)|) && text[..2] == "0x"
      && ReadNumber(text[2..] + [NUL], 16) == (arg, |text| - 2)
      && (zero || width == 0 ==> ReadNumber(text + [NUL], 16) == ReadNumber(text + [NUL], 0) == (arg, |text|))
  {
    hide Render, Digits, ReadNumber, Padded;
    var f := Field(ZeroFlag(zero), width, precision, longs, 'p');
    OneFlag(zero);
    RenderAlone(f, ap);
    PointerText(UnsignedArg(ap(0).num, 0), SpecOf(f).width, if zero then '0' else ' ');
  }

  lemma PointerText(arg: nat, width: int, padc: char)
    requires padc == ' ' || padc == '0'
    ensures var text := "0x" + Padded(arg, 16, width, padc);
      && |text| == 2 + Max(width, |Digits(arg, 16)|) && text[..2] == "0x"
      && ReadNumber(text[2..] + [NUL], 16) == (arg, |text| - 2)
      && (padc == '0' || width <= 0 ==> ReadNumber(text + [NUL], 16) == ReadNumber(text + [NUL], 0) == (arg, |text|))
  {
    hide Digits, ReadNumber;
    var number := Padded(arg, 16, width, padc);
    ReadPrinted(arg, 16, width, padc);
    PaddedLength(arg, 16, width, padc);
    DigitsPlain(arg, 16);
    assert ("0x" + number)[2..] == number;
    if padc == '0' || width <= 0 {
      var k := |number| - |Digits(arg, 16)|;
      LeadingZeros(k, Digits(arg, 16), 16);
      assert Repeat(padc, width - |Digits(arg, 16)|) == Repeat('0', k);
      HexPrefixReads(number);
    }
  }

  // -------------------------------------------------- prefixes and signs of numbers

  /** After "0x" digits are hexadecimal, in base 16 and in base 0. */
  lemma HexPrefixReads(t: seq<char>)
    requires AllDigits(t, 16)
    ensures ReadNumber("0x" + t + [NUL], 16) == ReadNumber("0x" + t + [NUL], 0) == (Value(t, 16, 0), 2 + |t|)
  {
    var s := "0x" + t + [NUL];
    assert s[2..2 + |t|] == t;
    assert SkipBlanks(s, 0) == 0;
    ReadsDigits(s, 2, t, 16, 0);
  }

  /** In base 0, digits after a '0' are octal, and digits that do not begin with one are decimal. */
  lemma BaseZeroReads(t: seq<char>)
    ensures AllDigits(t, 8) ==> ReadNumber("0" + t + [NUL], 0) == (Value(t, 8, 0), 1 + |t|)
    ensures AllDigits(t, 10) && t != [] && t[0] != '0' ==> ReadNumber(t + [NUL], 0) == (Value(t, 10, 0), |t|)
  {
    if AllDigits(t, 8) {
      OctalReads(t);
    }
    if AllDigits(t, 10) && t != [] && t[0] != '0' {
      DecimalReads(t);
    }
  }

  lemma OctalReads(t: seq<char>)
    requires AllDigits(t, 8)
    ensures ReadNumber("0" + t + [NUL], 0) == (Value(t, 8, 0), 1 + |t|)
  {
    hide ReadDigits, Value;
    var s := "0" + t + [NUL];
    assert s[1..1 + |t|] == t;
    assert SkipBlanks(s, 0) == 0;
    assert t != [] ==> DigitValue(s[1]) < 8;
    ReadsDigits(s, 1, t, 8, 0);
  }

  lemma DecimalReads(t: seq<char>)
    requires AllDigits(t, 10) && t != [] && t[0] != '0'
    ensures ReadNumber(t + [NUL], 0) == (Value(t, 10, 0), |t|)
  {
    hide ReadDigits, Value;
    var s := t + [NUL];
    assert s[0..0 + |t|] == t;
    assert DigitValue(s[0]) < 10;
    assert SkipBlanks(s, 0) == 0;
    ReadsDigits(s, 0, t, 10, 0);
  }

  /** Letters of either case are the digits from ten to thirty-five. */
  lemma LettersRead(i: nat)
    ensures i < 26 ==> DigitValue('a' + i as char) == 10 + i && DigitValue('A' + i as char) == 10 + i
    ensures i < 10 ==> DigitValue('0' + i as char) == i
  {
  }

  /** Blanks and tabs before a number are skipped. */
  lemma BlanksAreSkipped(blanks: seq<char>, t: seq<char>, base: nat)
    requires AllDigits(t, base) && 2 <= base && t != []
    requires forall i :: 0 <= i < |blanks| ==> blanks[i] == ' ' || blanks[i] == '\t'
    ensures ReadNumber(blanks + t + [NUL], base) == (Value(t, base, 0), |blanks| + |t|)
  {
    hide ReadUnsigned, Value;
    var s, n := blanks + t + [NUL], |blanks|;
    assert DigitValue(t[0]) < base && s[n] == t[0];
    assert s[n..n + |t|] == t;
    SkipsBlanks(s, 0, n);
    ReadsPlain(s, n, t, base);
  }

  lemma {:induction false} SkipsBlanks(s: seq<char>, i: nat, n: nat)
    requires i <= n < |s| && (forall k :: i <= k < n ==> IsBlank(s[k])) && !IsBlank(s[n])
    ensures SkipBlanks(s, i) == n
    decreases n - i
  {
    if i < n {
      SkipsBlanks(s, i + 1, n);
    }
  }

  /** A plus changes nothing and a minus the sign; letters count from ten in either case. */
  lemma SignsRead(t: seq<char>, base: nat)
    requires AllDigits(t, base) && 2 <= base && t != []
    ensures ReadNumber(t + [NUL], base) == (Value(t, base, 0), |t|)
    ensures ReadNumber(['+'] + t + [NUL], base) == (Value(t, base, 0), 1 + |t|)
    ensures ReadNumber(['-'] + t + [NUL], base) == (-Value(t, base, 0), 1 + |t|)
  {
    assert DigitValue(t[0]) < base;
    assert (t + [NUL])[0..0 + |t|] == t;
    ReadsPlain(t + [NUL], 0, t, base);
    assert SkipBlanks(t + [NUL], 0) == 0;
    var plus, minus := ['+'] + t + [NUL], ['-'] + t + [NUL];
    assert plus[1..1 + |t|] == t && minus[1..1 + |t|] == t;
    assert SkipBlanks(plus, 0) == 0 && SkipBlanks(minus, 0) == 0;
    ReadsPlain(plus, 1, t, base);
    ReadsPlain(minus, 1, t, base);
  }

  // -------------------------------------------------- characters and strings

  lemma CharPrints(f: Field, ap: Args)
    requires IsField(f) && f.conv == 'c'
    ensures IsCString(Alone(f)) && |Render(Alone(f), 0, ap, 0)| == 1
    ensures Render(Alone(f), 0, ap, 0)[0] as int == ap(0).num % 256
  {
    hide Render, Written;
    RenderAlone(f, ap);
  }

  lemma PercentPrints(f: Field, ap: Args)
    requires IsField(f) && f.conv == '%'
    ensures IsCString(Alone(f)) && Render(Alone(f), 0, ap, 0) == ['%']
  {
    hide Render, Written;
    RenderAlone(f, ap);
  }

  /** What stands for a character: itself, or '?' if it is unprintable and the flag '#' is there. */
  predicate StandsFor(shown: char, c: char, alt: bool) {
    if alt && (c < ' ' || c > '~') then shown == '?' else shown == c
  }

  /**
   A string field of width N and precision M: max(N, min(M, length)) characters, the cut string at the
   end, or at the start with the flag '-', and padding in the rest.
   */
  lemma StringPrints(flags: seq<char>, width: nat, precision: nat, longs: nat, ap: Args)
    requires forall i :: 0 <= i < |flags| ==> IsFlag(flags[i])
    ensures var f := Field(flags, width, precision, longs, 's');
      var s := StringArg(ap(0));
      var m := if precision == 0 || |s| <= precision then |s| else precision;
      var left := Padding(flags, ' ') == '-';
      && IsCString(Alone(f))
      && var text := Render(Alone(f), 0, ap, 0);
      var at := if left then 0 else |text| - m;
      && |text| == Max(width, m)
      && (forall i :: 0 <= i < m ==> StandsFor(text[at + i], s[i], '#' in flags))
      && (forall i :: 0 <= i < |text| && !(at <= i < at + m) ==> text[i] == if left then ' ' else Padding(flags, ' '))
  {
    hide Render, Written, Padding, StringField, StringArg;
    var f := Field(flags, width, precision, longs, 's');
    RenderAlone(f, ap);
    PaddingIsFlag(flags, ' ');
    FieldPlaces(StringArg(ap(0)), SpecOf(f));
  }

  /** Where the characters of a string field are. */
  lemma FieldPlaces(s: seq<char>, spec: Spec)
    requires spec.padc == ' ' || spec.padc == '-' || spec.padc == '0'
    requires spec.precision > 0 || spec.precision == -1
    ensures var text := StringField(s, spec);
      var m := if spec.precision < 0 || |s| <= spec.precision then |s| else spec.precision;
      var left := spec.padc == '-';
      && |text| == Max(spec.width, m)
      && var at := if left then 0 else |text| - m;
      && (forall i :: 0 <= i < m ==> StandsFor(text[at + i], s[i], spec.alt))
      && (forall i :: 0 <= i < |text| && !(at <= i < at + m) ==> text[i] == if left then ' ' else spec.padc)
  {
    hide StringField, StandsFor, Cut;
    CutIsPrefix(s, spec.precision);
    if spec.width > 0 && spec.padc != '-' {
      FieldOnTheRight(s, spec);
    } else {
      FieldOnTheLeft(s, spec);
    }
  }

  lemma FieldOnTheRight(s: seq<char>, spec: Spec)
    requires spec.width > 0 && spec.padc != '-'
    ensures var text, m := StringField(s, spec), |Cut(s, spec.precision)|;
      && m <= |s| && |text| == Max(spec.width, m)
      && (forall i :: 0 <= i < m ==> StandsFor(text[|text| - m + i], s[i], spec.alt))
      && (forall i :: 0 <= i < |text| - m ==> text[i] == spec.padc)
  {
    hide Repeat, Cut, ShownAll, StandsFor;
    var cut := Cut(s, spec.precision);
    FieldParts(s, spec);
    CutIsPrefix(s, spec.precision);
    ShownStandsFor(cut, spec.alt);
    var shown, n := ShownAll(cut, spec.alt), spec.width - |cut|;
    assert StringField(s, spec) == Repeat(spec.padc, n) + shown + Repeat(' ', 0);
    PlacedRight(Repeat(spec.padc, n), shown, s, spec.padc, spec.alt);
  }

  lemma FieldOnTheLeft(s: seq<char>, spec: Spec)
    requires spec.width <= 0 || spec.padc == '-'
    ensures var text, m := StringField(s, spec), |Cut(s, spec.precision)|;
      && m <= |s| && |text| == Max(spec.width, m)
      && (forall i :: 0 <= i < m ==> StandsFor(text[i], s[i], spec.alt))
      && (forall i :: m <= i < |text| ==> text[i] == ' ')
  {
    hide Repeat, Cut, ShownAll, StandsFor;
    var cut := Cut(s, spec.precision);
    FieldParts(s, spec);
    CutIsPrefix(s, spec.precision);
    ShownStandsFor(cut, spec.alt);
    var shown, n := ShownAll(cut, spec.alt), spec.width - |cut|;
    assert StringField(s, spec) == shown + Repeat(' ', n);
    PlacedLeft(Repeat(' ', n), shown, s, spec.alt);
  }

  lemma PlacedRight(pad: seq<char>, shown: seq<char>, s: seq<char>, padc: char, alt: bool)
    requires |shown| <= |s| && forall i :: 0 <= i < |shown| ==> StandsFor(shown[i], s[i], alt)
    requires forall i :: 0 <= i < |pad| ==> pad[i] == padc
    ensures var text := pad + shown + Repeat(' ', 0);
      && |text| == |pad| + |shown|
      && (forall i :: 0 <= i < |shown| ==> StandsFor(text[|pad| + i], s[i], alt))
      && (forall i :: 0 <= i < |text| && !(|pad| <= i < |pad| + |shown|) ==> text[i] == padc)
  {
    hide StandsFor;
  }

  lemma PlacedLeft(pad: seq<char>, shown: seq<char>, s: seq<char>, alt: bool)
    requires |shown| <= |s| && forall i :: 0 <= i < |shown| ==> StandsFor(shown[i], s[i], alt)
    requires forall i :: 0 <= i < |pad| ==> pad[i] == ' '
    ensures var text := shown + pad;
      && |text| == |pad| + |shown|
      && (forall i :: 0 <= i < |shown| ==> StandsFor(text[0 + i], s[i], alt))
      && (forall i :: 0 <= i < |text| && !(0 <= i < |shown|) ==> text[i] == ' ')
  {
    hide StandsFor;
  }

  lemma CutIsPrefix(s: seq<char>, precision: int)
    ensures Cut(s, precision) <= s && |Cut(s, precision)| == if 0 <= precision < |s| then precision else |s|
  {
  }

  lemma ShownStandsFor(s: seq<char>, alt: bool)
    ensures |ShownAll(s, alt)| == |s| && forall i :: 0 <= i < |s| ==> StandsFor(ShownAll(s, alt)[i], s[i], alt)
  {
  }

  /** A NULL string prints as "(null)", any other up to its NUL. */
  lemma StringArguments(ap: Args)
    ensures IsCString("%s" + [NUL])
    ensures ap(0).str == None ==> Render("%s" + [NUL], 0, ap, 0) == "(null)"
    ensures ap(0).str.Some? ==>
      var s, text := ap(0).str.value, Render("%s" + [NUL], 0, ap, 0);
      NUL !in text && |text| <= |s| && text == s[..|text|] && (|text| < |s| ==> s[|text|] == NUL)
  {
    hide Render, UpToNul;
    var f := Field([], 0, 0, 0, 's');
    assert Repeat('l', 0) == [];
    assert Alone(f) == "%s" + [NUL];
    RenderAlone(f, ap);
    var s := StringArg(ap(0));
    assert ShownAll(s, false) == s && s + [] == s;
  }

  lemma {:induction false} PaddingIsFlag(flags: seq<char>, padc: char)
    requires forall i :: 0 <= i < |flags| ==> IsFlag(flags[i])
    ensures Padding(flags, padc) == padc || Padding(flags, padc) == '-' || Padding(flags, padc) == '0'
    decreases |flags|
  {
    if flags != [] {
      PaddingIsFlag(flags[1..], if flags[0] == '#' then padc else flags[0]);
    }
  }

  /** Of '-' and '0' the last one counts. */
  lemma LastFlagCounts(flags: seq<char>, c: char)
    requires c == '-' || c == '0'
    ensures Padding([c], ' ') == c && Padding([], ' ') == ' ' && Padding(['#'], ' ') == ' '
    ensures Padding(flags + [c], ' ') == c
  {
    LastPadding(flags, c, ' ');
    assert [c][1..] == [] && ['#'][1..] == [];
  }

  lemma {:induction false} LastPadding(flags: seq<char>, c: char, padc: char)
    requires c == '-' || c == '0'
    ensures Padding(flags + [c], padc) == c
    decreases |flags|
  {
    if flags == [] {
      assert [] + [c] == [c] && [c][1..] == [];
    } else {
      assert (flags + [c])[1..] == flags[1..] + [c];
      LastPadding(flags[1..], c, if flags[0] == '#' then padc else flags[0]);
    }
  }

  /** A precision of zero cannot be asked for: the 0 is taken for a flag, and the string is not cut. */
  lemma ZeroPrecisionIsAFlag(ap: Args)
    ensures var fmt := "%.0s" + [NUL];
      IsCString(fmt) && Render(fmt, 0, ap, 0) == StringArg(ap(0))
  {
    hide Render, ScanEscape;
    var fmt := "%.0s" + [NUL];
    ScanTurn(fmt, 1, ap, 0, PLAIN);
    ScanTurn(fmt, 2, ap, 0, Spec(' ', 0, -1, 0, false));
    ScanTurn(fmt, 3, ap, 0, Spec('0', 0, -1, 0, false));
    RenderScanned(fmt, ap, Escape(Spec('0', 0, -1, 0, false), 's', 4, 0));
    var s := StringArg(ap(0));
    assert ShownAll(s, false) == s && s + [] == s;
  }

  lemma RenderScanned(fmt: seq<char>, ap: Args, e: Escape)
    requires IsCString(fmt) && fmt[0] == '%' && |fmt| > 1 && ScanEscape(fmt, 1, ap, 0, PLAIN) == e && e.end == |fmt| - 1
    requires IsConversion(e.conv)
    ensures Render(fmt, 0, ap, 0) == Convert(e.spec, e.conv, ap(e.used))
  {
    hide Convert, ScanEscape, IsConversion;
    RenderEnd(fmt, e.end, ap, After(e));
    assert Convert(e.spec, e.conv, ap(e.used)) + [] == Convert(e.spec, e.conv, ap(e.used));
  }

  /** With '*' the width is the argument before the number, a 32-bit signed one. */
  lemma StarTakesTheWidth(conv: char, ap: Args)
    requires conv == 'u' || conv == 'o' || conv == 'x'
    ensures var fmt := ['%', '*', conv, NUL];
      var w := ap(0).num % 0x1_0000_0000;
      var width := if w < 0x8000_0000 then w else w - 0x1_0000_0000;
      var arg := ap(1).num % 0x1_0000_0000;
      var base := if conv == 'u' then 10 else if conv == 'o' then 8 else 16;
      && IsCString(fmt)
      && var text := Render(fmt, 0, ap, 0);
      && ReadNumber(text + [NUL], base) == (arg, |text|)
      && |text| == Max(width, |Digits(arg, base)|)
  {
    hide Render, ScanEscape, Padded, ReadNumber, Digits;
    var fmt := ['%', '*', conv, NUL];
    var width := Signed(ap(0).num, 0);
    ScanTurn(fmt, 1, ap, 0, PLAIN);
    ScanTurn(fmt, 2, ap, 1, PLAIN.(width := width));
    RenderScanned(fmt, ap, Escape(PLAIN.(width := width), conv, 3, 1));
    var arg, base := UnsignedArg(ap(1).num, 0), BaseOf(conv);
    ReadPrinted(arg, base, width, ' ');
    PaddedLength(arg, base, width, ' ');
    DigitsPlain(arg, base);
  }

  // -------------------------------------------------- errors

  /** The errors that the memory manager and vsnprintf return print as what they are. */
  lemma ReturnedErrors(f: Field, ap: Args)
    requires IsField(f) && f.conv == 'e'
    ensures IsCString(Alone(f))
    ensures ap(0).num == -PageManager.E_NO_MEM ==> Render(Alone(f), 0, ap, 0) == "out of memory"
    ensures ap(0).num == -E_INVAL ==> Render(Alone(f), 0, ap, 0) == "invalid parameter"
  {
    hide Render, Written, IsField, SpecOf, SignedText, StringField;
    assert -4 % 0x1_0000_0000 == 0xFFFF_FFFC && -3 % 0x1_0000_0000 == 0xFFFF_FFFD;
    ErrorNames(f, ap);
  }

  /** The error conversion names the six errors of inc/error.h, with either sign, and numbers any other. */
  lemma ErrorNames(f: Field, ap: Args)
    requires IsField(f) && f.conv == 'e'
    ensures var u := ap(0).num % 0x1_0000_0000;
      var n := if u < 0x8000_0000 then u else 0x1_0000_0000 - u;
      && IsCString(Alone(f))
      && var text := Render(Alone(f), 0, ap, 0);
      && (n == 1 ==> text == "unspecified error") && (n == 2 ==> text == "bad environment")
      && (n == 3 ==> text == "invalid parameter") && (n == 4 ==> text == "out of memory")
      && (n == 5 ==> text == "out of environments") && (n == 6 ==> text == "segmentation fault")
      && (n == 0 || n > 6 ==>
            |text| > 6 && text[..6] == "error " && ReadNumber(text[6..] + [NUL], 10) == (n, |text| - 6))
  {
    hide Render, Written, Padded, ReadNumber, Digits;
    RenderAlone(f, ap);
    var n := Abs(Signed(ap(0).num, 0));
    ReadPrinted(n, 10, -1, ' ');
    PaddedLength(n, 10, -1, ' ');
    DigitsPlain(n, 10);
    if n == 0 || n > 6 {
      var number := Padded(n, 10, -1, ' ');
      assert ("error " + number)[6..] == number;
    }
  }
}
