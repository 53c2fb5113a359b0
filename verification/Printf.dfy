/** The formatted printer: a scanner that backtracks on escapes it does not know, and vsnprintf. */
module Printf {
  import opened Base
  import opened Numerals

  /**
   One entry of the variable argument list, as each kind of conversion would read it.  What lies beyond
   the arguments actually passed is whatever memory holds, so a list is a function of the position.
   */
  datatype Arg = Arg(num: int, str: Option<seq<char>>)

  type Args = nat -> Arg

  const E_INVAL := 3

  // -------------------------------------------------- machine integers

  function Unsigned(x: int, lflag: nat): nat {
    if lflag >= 2 then x % 0x1_0000_0000_0000_0000 else x % 0x1_0000_0000
  }

  function Signed(x: int, lflag: nat): int {
    var u := Unsigned(x, lflag);
    if lflag >= 2 then (if u < 0x8000_0000_0000_0000 then u else u - 0x1_0000_0000_0000_0000)
    else if u < 0x8000_0000 then u else u - 0x1_0000_0000
  }

  // -------------------------------------------------- what an escape says

  /** Flags and numbers collected between '%' and the conversion character. */
  datatype Spec = Spec(padc: char, width: int, precision: int, lflag: nat, alt: bool)

  const PLAIN := Spec(' ', -1, -1, 0, false)

  /** A scanned escape: the conversion character, the position after it, and the arguments used so far. */
  datatype Escape = Escape(spec: Spec, conv: char, end: nat, used: nat)

  /** The first number is the width; once there is a width, a number is the precision. */
  function WithNumber(s: Spec, n: int): Spec {
    if s.width < 0 then s.(width := n, precision := -1) else s.(precision := n)
  }

  predicate IsDigit(c: char) {
    '0' <= c <= '9'
  }

  /** The decimal number that continues at i, and where it ends. */
  function Number(fmt: seq<char>, i: nat, val: int): (r: (int, nat))
    requires i <= |fmt|
    ensures i <= r.1 <= |fmt|
    ensures forall j :: i <= j < r.1 ==> IsDigit(fmt[j])
    decreases |fmt| - i
  {
    if i < |fmt| && IsDigit(fmt[i]) then Number(fmt, i + 1, val * 10 + (fmt[i] as int - '0' as int)) else (val, i)
  }

  function ScanEscape(fmt: seq<char>, i: nat, ap: Args, used: nat, spec: Spec): (e: Escape)
    requires IsCString(fmt) && i < |fmt|
    ensures i < e.end <= |fmt| && fmt[e.end - 1] == e.conv
    ensures forall j :: i <= j < e.end - 1 ==> fmt[j] != '%' && fmt[j] != NUL
    decreases |fmt| - i
  {
    var c := fmt[i];
    if c == '-' || c == '0' then ScanEscape(fmt, i + 1, ap, used, spec.(padc := c))
    else if IsDigit(c) then
      var (n, j) := Number(fmt, i + 1, c as int - '0' as int);
      assert !IsDigit(fmt[|fmt| - 1]) && j < |fmt|;
      ScanEscape(fmt, j, ap, used, WithNumber(spec, n))
    else if c == '*' then ScanEscape(fmt, i + 1, ap, used + 1, WithNumber(spec, Signed(ap(used).num, 0)))
    else if c == '.' then ScanEscape(fmt, i + 1, ap, used, if spec.width < 0 then spec.(width := 0) else spec)
    else if c == '#' then ScanEscape(fmt, i + 1, ap, used, spec.(alt := true))
    else if c == 'l' then ScanEscape(fmt, i + 1, ap, used, spec.(lflag := spec.lflag + 1))
    else Escape(spec, c, i + 1, used)
  }

  // -------------------------------------------------- what a conversion prints

  predicate IsConversion(c: char) {
    c in "cesduopx%"
  }

  /** The names of the error codes; code 0 and codes from MAXERROR on have none. */
  function ErrorText(err: nat): Option<seq<char>> {
    if err == 1 then Some("unspecified error")
    else if err == 2 then Some("bad environment")
    else if err == 3 then Some("invalid parameter")
    else if err == 4 then Some("out of memory")
    else if err == 5 then Some("out of environments")
    else if err == 6 then Some("segmentation fault")
    else None
  }

  function Abs(x: int): nat {
    if x < 0 then -x else x
  }

  function ErrorMessage(err: int): seq<char> {
    match ErrorText(Abs(err))
    case Some(text) => text
    case None => "error " + SignedText(Abs(err), -1, ' ')
  }

  /** A character of a string, or '?' in its place when it is unprintable and the flag asks for it. */
  function Shown(c: char, alt: bool): char {
    if alt && (c < ' ' || c > '~') then '?' else c
  }

  function ShownAll(s: seq<char>, alt: bool): (r: seq<char>)
    ensures |r| == |s| && forall i :: 0 <= i < |s| ==> r[i] == Shown(s[i], alt)
  {
    seq(|s|, i requires 0 <= i < |s| => Shown(s[i], alt))
  }

  /** At most `precision` characters, all of them if it is negative. */
  function Cut(s: seq<char>, precision: int): seq<char> {
    if 0 <= precision < |s| then s[..precision] else s
  }

  /** A string field: padded on the left unless '-' was given, then on the right with blanks. */
  function StringField(s: seq<char>, spec: Spec): seq<char> {
    var text := Cut(s, spec.precision);
    if spec.width > 0 && spec.padc != '-'
    then Repeat(spec.padc, spec.width - |text|) + ShownAll(text, spec.alt)
    else ShownAll(text, spec.alt) + Repeat(' ', spec.width - |text|)
  }

  /** The text up to the first NUL of what a string argument points to; NULL prints as "(null)". */
  function StringArg(a: Arg): seq<char> {
    match a.str
    case Some(s) => UpToNul(s)
    case None => "(null)"
  }

  function UpToNul(s: seq<char>): (r: seq<char>)
    ensures NUL !in r && |r| <= |s| && r == s[..|r|] && (|r| < |s| ==> s[|r|] == NUL)
  {
    if s == [] || s[0] == NUL then [] else [s[0]] + UpToNul(s[1..])
  }

  function Convert(spec: Spec, conv: char, a: Arg): seq<char>
    requires IsConversion(conv)
  {
    if conv == 'c' then [(a.num % 256) as char]
    else if conv == 'e' then ErrorMessage(Signed(a.num, 0))
    else if conv == 's' then StringField(StringArg(a), spec)
    else if conv == 'd' then SignedText(Signed(a.num, spec.lflag), spec.width, spec.padc)
    else if conv == 'u' then Padded(Unsigned(a.num, spec.lflag), 10, spec.width, spec.padc)
    else if conv == 'o' then Padded(Unsigned(a.num, spec.lflag), 8, spec.width, spec.padc)
    else if conv == 'p' then "0x" + Padded(Unsigned(a.num, 0), 16, spec.width, spec.padc)
    else if conv == 'x' then Padded(Unsigned(a.num, spec.lflag), 16, spec.width, spec.padc)
    else "%"
  }

  /** '%' takes no argument, every other conversion takes one. */
  function After(e: Escape): nat {
    if e.conv == '%' then e.used else e.used + 1
  }

  /** What is printed next, and where the format and the arguments go on. */
  datatype Piece = Piece(text: seq<char>, next: nat, used: nat)

  function FirstPiece(fmt: seq<char>, i: nat, ap: Args, used: nat): (p: Piece)
    requires IsCString(fmt) && i < |fmt| && fmt[i] != NUL
    ensures i < p.next < |fmt|
  {
    if fmt[i] != '%' then Piece([fmt[i]], i + 1, used)
    else
      var e := ScanEscape(fmt, i + 1, ap, used, PLAIN);
      if IsConversion(e.conv) then Piece(Convert(e.spec, e.conv, ap(e.used)), e.end, After(e))
      else Piece(['%'], i + 1, e.used)
  }

  /** The text that fmt from position i on denotes, with arguments from `used` on. */
  function Render(fmt: seq<char>, i: nat, ap: Args, used: nat): seq<char>
    requires IsCString(fmt) && i < |fmt|
    decreases |fmt| - i
  {
    if fmt[i] == NUL then []
    else
      var p := FirstPiece(fmt, i, ap, used);
      p.text + Render(fmt, p.next, ap, p.used)
  }

  // -------------------------------------------------- the printer

  /** The number after a first digit: the loop that leaves the position at the first non-digit. */
  method ScanNumber(fmt: seq<char>, i: nat) returns (precision: int, j: nat)
    requires IsCString(fmt) && i < |fmt| && IsDigit(fmt[i])
    ensures (precision, j) == Number(fmt, i + 1, fmt[i] as int - '0' as int) && j < |fmt|
  {
    var ch := fmt[i];
    assert fmt[i] != NUL;
    precision, j := 0, i + 1;
    ghost var target := Number(fmt, i + 1, fmt[i] as int - '0' as int);
    while true
      invariant i < j < |fmt| && IsDigit(ch)
      invariant Number(fmt, j, precision * 10 + (ch as int - '0' as int)) == target
      decreases |fmt| - j
    {
      precision := precision * 10 + (ch as int - '0' as int);
      ch := fmt[j];
      if ch < '0' || ch > '9' {
        break;
      }
      j := j + 1;
    }
  }

  /** One character of an escape. */
  lemma ScanTurn(fmt: seq<char>, i: nat, ap: Args, used: nat, spec: Spec)
    requires IsCString(fmt) && i < |fmt|
    ensures var c := fmt[i]; var scanned := ScanEscape(fmt, i, ap, used, spec);
      if c == '-' || c == '0' then i + 1 < |fmt| && scanned == ScanEscape(fmt, i + 1, ap, used, spec.(padc := c))
      else if '1' <= c <= '9' then
        var (n, j) := Number(fmt, i + 1, c as int - '0' as int);
        IsDigit(c) && i < j < |fmt| && scanned == ScanEscape(fmt, j, ap, used, WithNumber(spec, n))
      else if c == '*' then
        i + 1 < |fmt| && scanned == ScanEscape(fmt, i + 1, ap, used + 1, WithNumber(spec, Signed(ap(used).num, 0)))
      else if c == '.' then
        i + 1 < |fmt| &&
        scanned == ScanEscape(fmt, i + 1, ap, used, if spec.width < 0 then spec.(width := 0) else spec)
      else if c == '#' then i + 1 < |fmt| && scanned == ScanEscape(fmt, i + 1, ap, used, spec.(alt := true))
      else if c == 'l' then i + 1 < |fmt| && scanned == ScanEscape(fmt, i + 1, ap, used, spec.(lflag := spec.lflag + 1))
      else scanned == Escape(spec, c, i + 1, used)
  {
    hide Signed, WithNumber;
    assert !IsDigit(fmt[|fmt| - 1]);
  }

  /** The part of the scanner between '%' and the conversion character. */
  method Scan(fmt: seq<char>, i0: nat, ap: Args, used0: nat) returns (e: Escape)
    requires IsCString(fmt) && i0 < |fmt|
    ensures e == ScanEscape(fmt, i0, ap, used0, PLAIN)
  {
    hide ScanEscape, Number, Signed, IsDigit;
    var i, used := i0, used0;
    var padc, width, precision, lflag, altflag := ' ', -1, -1, 0, false;
    while true
      invariant i < |fmt|
      invariant ScanEscape(fmt, i0, ap, used0, PLAIN)
             == ScanEscape(fmt, i, ap, used, Spec(padc, width, precision, lflag, altflag))
      decreases |fmt| - i
    {
      var ch := fmt[i];
      ghost var was := Spec(padc, width, precision, lflag, altflag);
      ScanTurn(fmt, i, ap, used, was);
      if ch == '-' || ch == '0' {
        padc := ch;
        i := i + 1;
      } else if '1' <= ch <= '9' {
        precision, i := ScanNumber(fmt, i);
        ghost var n := precision;
        if width < 0 {
          width, precision := precision, -1;
        }
        assert Spec(padc, width, precision, lflag, altflag) == WithNumber(was, n);
      } else if ch == '*' {
        precision := Signed(ap(used).num, 0);
        ghost var n := precision;
        used, i := used + 1, i + 1;
        if width < 0 {
          width, precision := precision, -1;
        }
        assert Spec(padc, width, precision, lflag, altflag) == WithNumber(was, n);
      } else if ch == '.' {
        if width < 0 {
          width := 0;
        }
        i := i + 1;
      } else if ch == '#' {
        altflag := true;
        i := i + 1;
      } else if ch == 'l' {
        lflag := lflag + 1;
        i := i + 1;
      } else {
        return Escape(Spec(padc, width, precision, lflag, altflag), ch, i + 1, used);
      }
    }
  }

  /** The length of a C string, but at most `size`. */
  method Strnlen(p: seq<char>, size: nat) returns (n: nat)
    requires IsCString(p)
    ensures n == if size < |p| - 1 then size else |p| - 1
  {
    n := 0;
    var left := size;
    while left > 0 && p[n] != NUL
      invariant n < |p| && n + left == size
    {
      n := n + 1;
      left := left - 1;
    }
  }

  /** Puts n copies of a character: the loops that count a width down to zero. */
  method PutMany(out: Sink, c: char, n: int)
    requires out.Valid()
    modifies out, out.buf
    ensures out.Wrote(Repeat(c, n))
  {
    var width := n;
    ghost var k := 0;
    while width > 0
      invariant if n <= 0 then width == n && k == 0 else width + k == n && 0 <= k <= n
      invariant out.Wrote(Repeat(c, k))
    {
      out.Put(c);
      width := width - 1;
      k := k + 1;
    }
  }

  lemma ShownOneMore(text: seq<char>, i: nat, alt: bool)
    requires i < |text|
    ensures ShownAll(text[..i + 1], alt) == ShownAll(text[..i], alt) + [Shown(text[i], alt)]
  {
  }

  /** The characters of a string conversion; returns the width that is left after them. */
  method PutChars(out: Sink, p: seq<char>, spec: Spec, width0: int) returns (width: int)
    requires IsCString(p) && out.Valid()
    modifies out, out.buf
    ensures out.Wrote(ShownAll(Cut(p[..|p| - 1], spec.precision), spec.alt))
    ensures width == width0 - |Cut(p[..|p| - 1], spec.precision)|
  {
    hide Sink.Valid, ShownAll;
    var precision, i := spec.precision, 0;
    width := width0;
    ghost var text := Cut(p[..|p| - 1], spec.precision);
    while true
      invariant i <= |text| && |text| < |p| && width == width0 - i
      invariant if spec.precision < 0 then precision == spec.precision else precision == spec.precision - i >= 0
      invariant out.Wrote(ShownAll(text[..i], spec.alt))
      decreases |p| - i
    {
      var ch := p[i];
      if ch == NUL {
        break;
      }
      if precision >= 0 {
        precision := precision - 1;
        if precision < 0 {
          break;
        }
      }
      assert i < |text| && text[i] == ch;
      ShownOneMore(text, i, spec.alt);
      if spec.alt && (ch < ' ' || ch > '~') {
        out.Put('?');
      } else {
        out.Put(ch);
      }
      i := i + 1;
      width := width - 1;
    }
    assert i == |text| && text[..i] == text;
  }

  /** A string conversion.  As a size, a negative precision exceeds every string. */
  method PutStringField(out: Sink, p: seq<char>, spec: Spec)
    requires IsCString(p) && out.Valid()
    modifies out, out.buf
    ensures out.Wrote(StringField(p[..|p| - 1], spec))
  {
    hide Sink.Valid, ShownAll, Cut, StringField, Repeat;
    ghost var text := Cut(p[..|p| - 1], spec.precision);
    FieldParts(p[..|p| - 1], spec);
    var width := spec.width;
    if width > 0 && spec.padc != '-' {
      var len := Strnlen(p, if spec.precision < 0 then |p| else spec.precision);
      PutMany(out, spec.padc, width - len);
      var rest := PutChars(out, p, spec, if width > len then 0 else width - len);
      PutMany(out, ' ', rest);
    } else {
      width := PutChars(out, p, spec, width);
      PutMany(out, ' ', width);
    }
  }

  /** The field in the pieces in which it is put: padding, text, and what is left of the width. */
  lemma FieldParts(s: seq<char>, spec: Spec)
    ensures var text := Cut(s, spec.precision);
      && |text| == (if 0 <= spec.precision < |s| then spec.precision else |s|)
      && (spec.width > 0 && spec.padc != '-' ==>
            forall rest :: rest <= 0 ==>
              StringField(s, spec) == Repeat(spec.padc, spec.width - |text|) + ShownAll(text, spec.alt) + Repeat(' ', rest))
      && (!(spec.width > 0 && spec.padc != '-') ==>
            StringField(s, spec) == ShownAll(text, spec.alt) + Repeat(' ', spec.width - |text|))
  {
  }

  /** A signed number: the sign first, then the padded magnitude. */
  method PutSigned(out: Sink, x: int, width: int, padc: char)
    requires out.Valid()
    modifies out, out.buf
    ensures out.Wrote(SignedText(x, width, padc))
  {
    if x < 0 {
      out.Put('-');
      PrintNum(out, -x, 10, width, padc);
    } else {
      PrintNum(out, x, 10, width, padc);
    }
  }

  method PutText(out: Sink, text: seq<char>)
    requires out.Valid()
    modifies out, out.buf
    ensures out.Wrote(text)
  {
    for i := 0 to |text|
      invariant out.Wrote(text[..i])
    {
      out.Put(text[i]);
      assert text[..i + 1] == text[..i] + [text[i]];
    }
    assert text[..|text|] == text;
  }

  /** The cases of the switch that print an argument. */
  method PutConversion(out: Sink, spec: Spec, conv: char, a: Arg)
    requires IsConversion(conv) && out.Valid()
    modifies out, out.buf
    ensures out.Wrote(Convert(spec, conv, a))
  {
    hide Sink.Valid, Padded, SignedText, StringField, Unsigned, Signed, Abs;
    if conv == 'c' {
      out.Put((a.num % 256) as char);
    } else if conv == 'e' {
      var err := Abs(Signed(a.num, 0));
      var p := ErrorText(err);
      if p.None? {
        PutText(out, "error ");
        PutSigned(out, err, -1, ' ');
      } else {
        PutText(out, p.value);
      }
    } else if conv == 's' {
      PutStringField(out, StringArg(a) + [NUL], spec);
    } else if conv == '%' {
      out.Put('%');
    } else {
      PutNumber(out, spec, conv, a);
    }
  }

  /** The conversions that print a number. */
  method PutNumber(out: Sink, spec: Spec, conv: char, a: Arg)
    requires conv in "duopx" && out.Valid()
    modifies out, out.buf
    ensures IsConversion(conv) && out.Wrote(Convert(spec, conv, a))
  {
    hide Sink.Valid, Padded, SignedText, Unsigned, Signed, ErrorMessage, StringField;
    if conv == 'd' {
      PutSigned(out, Signed(a.num, spec.lflag), spec.width, spec.padc);
    } else if conv == 'u' {
      PrintNum(out, Unsigned(a.num, spec.lflag), 10, spec.width, spec.padc);
    } else if conv == 'o' {
      PrintNum(out, Unsigned(a.num, spec.lflag), 8, spec.width, spec.padc);
    } else if conv == 'p' {
      out.Put('0');
      out.Put('x');
      assert "0x" == ['0'] + ['x'];
      PrintNum(out, Unsigned(a.num, 0), 16, spec.width, spec.padc);
    } else {
      PrintNum(out, Unsigned(a.num, spec.lflag), 16, spec.width, spec.padc);
    }
  }

  /**
   Prints what the format denotes.  On an escape it does not know it puts the '%' and goes back to just
   after it, so that the rest of the escape is printed as plain text.
   */
  method VPrintFmt(out: Sink, fmt: seq<char>, ap: Args)
    requires IsCString(fmt) && out.Valid()
    modifies out, out.buf
    ensures out.Wrote(Render(fmt, 0, ap, 0))
  {
    hide Sink.Valid, Render, Convert, IsConversion, ScanEscape, After;
    var i, used := 0, 0;
    ghost var done: seq<char> := [];
    ghost var all := Render(fmt, 0, ap, 0);
    assert done + all == all;
    while true
      invariant i < |fmt| && out.Wrote(done) && done + Render(fmt, i, ap, used) == all
      decreases |fmt| - i
    {
      RenderStep(fmt, i, ap, used, done);
      if fmt[i] == NUL {
        return;
      }
      done := done + FirstPiece(fmt, i, ap, used).text;
      if fmt[i] != '%' {
        out.Put(fmt[i]);
        i := i + 1;
        continue;
      }
      var e := Scan(fmt, i + 1, ap, used);
      if IsConversion(e.conv) {
        PutConversion(out, e.spec, e.conv, ap(e.used));
        i, used := e.end, After(e);
      } else {
        out.Put('%');
        i := BackToPercent(fmt, i, e.end);
        used := e.used;
      }
    }
  }

  /** Steps back from the end of an unknown escape to just after its '%'. */
  method BackToPercent(fmt: seq<char>, i: nat, end: nat) returns (j: nat)
    requires i + 1 < end <= |fmt| && fmt[i] == '%' && forall k :: i < k < end - 1 ==> fmt[k] != '%'
    ensures j == i + 1
  {
    j := end - 1;
    while fmt[j - 1] != '%'
      invariant i < j < end
      decreases j
    {
      j := j - 1;
    }
  }

  /** The text goes on with its first piece, and ends at the NUL. */
  lemma RenderStep(fmt: seq<char>, i: nat, ap: Args, used: nat, done: seq<char>)
    requires IsCString(fmt) && i < |fmt|
    ensures fmt[i] == NUL ==> done + Render(fmt, i, ap, used) == done
    ensures fmt[i] != NUL ==>
      var p := FirstPiece(fmt, i, ap, used);
      done + Render(fmt, i, ap, used) == (done + p.text) + Render(fmt, p.next, ap, p.used)
  {
    hide FirstPiece;
  }

  // -------------------------------------------------- what the format language guarantees

  /** An unknown escape is printed literally, from its '%' on; its '*' arguments are used up all the same. */
  lemma {:induction false} UnknownEscapeIsLiteral(fmt: seq<char>, i: nat, ap: Args, used: nat)
    requires IsCString(fmt) && i < |fmt| && fmt[i] == '%'
    requires var e := ScanEscape(fmt, i + 1, ap, used, PLAIN); !IsConversion(e.conv)
    ensures var e := ScanEscape(fmt, i + 1, ap, used, PLAIN);
      Render(fmt, i, ap, used) == fmt[i..e.end - 1] + Render(fmt, e.end - 1, ap, e.used)
  {
    hide Render, ScanEscape, IsConversion;
    var e := ScanEscape(fmt, i + 1, ap, used, PLAIN);
    RenderStep(fmt, i, ap, used, []);
    PlainText(fmt, i + 1, e.end - 1, ap, e.used);
    assert [] + Render(fmt, i, ap, used) == Render(fmt, i, ap, used);
    assert fmt[i..e.end - 1] == [] + ['%'] + fmt[i + 1..e.end - 1];
  }

  /** Text without '%' is printed as it is. */
  lemma {:induction false} PlainText(fmt: seq<char>, i: nat, j: nat, ap: Args, used: nat)
    requires IsCString(fmt) && i <= j < |fmt| && forall k :: i <= k < j ==> fmt[k] != '%'
    ensures Render(fmt, i, ap, used) == fmt[i..j] + Render(fmt, j, ap, used)
    decreases j - i
  {
    hide Render;
    RenderStep(fmt, i, ap, used, []);
    assert [] + Render(fmt, i, ap, used) == Render(fmt, i, ap, used);
    if i < j {
      PlainText(fmt, i + 1, j, ap, used);
      assert fmt[i..j] == [] + [fmt[i]] + fmt[i + 1..j];
    } else {
      assert fmt[i..j] == [];
    }
  }

  lemma OneConversion(fmt: seq<char>, i: nat, ap: Args, c: char)
    requires IsCString(fmt) && i + 3 == |fmt| && fmt[i] == '%' && fmt[i + 1] == c && (c == 's' || c == 'd')
    ensures Render(fmt, i, ap, 0) == Convert(PLAIN, c, ap(0))
  {
    hide Convert, StringField;
    var e := Escape(PLAIN, c, i + 2, 0);
    assert ScanEscape(fmt, i + 1, ap, 0, PLAIN) == e;
    assert FirstPiece(fmt, i, ap, 0) == Piece(Convert(PLAIN, c, ap(0)), i + 2, 1);
    assert Render(fmt, i + 2, ap, 1) == [];
    assert Convert(PLAIN, c, ap(0)) + [] == Convert(PLAIN, c, ap(0));
  }

  /** The error conversion prints what the nested formats "%s" and "error %d" denote. */
  lemma ErrorFormats(named: seq<char>, numbered: seq<char>, ap: Args)
    requires named == "%s" + [NUL] && numbered == "error %d" + [NUL]
    ensures IsCString(named) && Render(named, 0, ap, 0) == StringArg(ap(0))
    ensures IsCString(numbered) && Render(numbered, 0, ap, 0) == "error " + SignedText(Signed(ap(0).num, 0), -1, ' ')
  {
    hide Render, SignedText, Signed;
    OneConversion(named, 0, ap, 's');
    var text := StringArg(ap(0));
    assert ShownAll(text, false) == text && text + [] == text;
    OneConversion(numbered, 6, ap, 'd');
    PlainText(numbered, 0, 6, ap, 0);
    assert numbered[0..6] == "error ";
  }

  /** The buffer holds as much of the text as the limit allows, a NUL, and then what it held before. */
  ghost predicate Filled(before: seq<char>, after: seq<char>, limit: nat, text: seq<char>) {
    var k := if |text| < limit then |text| else limit;
    k < |before| && after == text[..k] + [NUL] + before[k + 1..]
  }

  /**
   Formats into a buffer of n characters: as much of the text as fits, always terminated, nothing
   beyond; the result is the length of the whole text.
   */
  method Vsnprintf(buf: array?<char>, n: int, fmt: seq<char>, ap: Args) returns (r: int)
    requires IsCString(fmt) && (buf != null ==> n <= buf.Length)
    modifies if buf == null then {} else {buf}
    ensures buf == null || n < 1 ==> r == -E_INVAL && (buf != null ==> unchanged(buf))
    ensures buf != null && n >= 1 ==>
      var text := Render(fmt, 0, ap, 0);
      var k := if |text| < n - 1 then |text| else n - 1;
      && r == |text| && buf[..k] == text[..k] && buf[k] as int == 0
      && forall i :: k < i < buf.Length ==> buf[i] == old(buf[i])
  {
    hide Render, Filled;
    ghost var before := if buf == null then [] else buf[..];
    if buf == null || n < 1 {
      return -E_INVAL;
    }
    var b := new Sink(buf, n - 1);
    r := PrintAll(b, fmt, ap);
    FilledExactly(before, buf[..], n - 1, Render(fmt, 0, ap, 0));
    assert buf[..][..if r < n - 1 then r else n - 1] == buf[..if r < n - 1 then r else n - 1];
    forall i | 0 <= i < buf.Length
      ensures buf[i] == buf[..][i] && old(buf[i]) == before[i]
    {
    }
  }

  lemma FilledExactly(before: seq<char>, after: seq<char>, limit: nat, text: seq<char>)
    requires Filled(before, after, limit, text)
    ensures var k := if |text| < limit then |text| else limit;
      && k < |after| == |before| && after[..k] == text[..k] && after[k] as int == 0
      && forall i :: k < i < |after| ==> after[i] == before[i]
  {
  }

  /** Prints into an empty buffer and ends it with a NUL. */
  method PrintAll(b: Sink, fmt: seq<char>, ap: Args) returns (r: int)
    requires IsCString(fmt) && b.Valid() && b.stream == [] && b.limit < b.buf.Length
    modifies b, b.buf
    ensures r == |Render(fmt, 0, ap, 0)| && Filled(b.before, b.buf[..], b.limit, Render(fmt, 0, ap, 0))
  {
    hide Sink.Valid, Render, Filled;
    VPrintFmt(b, fmt, ap);
    assert [] + Render(fmt, 0, ap, 0) == Render(fmt, 0, ap, 0);
    SinkHolds(b);
    ghost var was := b.buf[..];
    b.buf[b.pos] := NUL;
    assert b.buf[..] == was[b.pos := NUL];
    r := b.cnt;
  }

  lemma SinkHolds(b: Sink)
    requires b.Valid() && b.limit < b.buf.Length
    ensures b.cnt == |b.stream| && b.pos < b.buf.Length
    ensures Filled(b.before, b.buf[..][b.pos := NUL], b.limit, b.stream)
  {
  }
}
