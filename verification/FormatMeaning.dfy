/** What each letter, flag, width and precision of a conversion means for the text it gives. */
module FormatMeaning {
  import opened FormatSpec
  import opened FormatLaws

  // ------------------------------------------------------------------ numerals

  /** The only letters of a numeral are those of its radix and case. */
  predicate IsNumeralChar(c: char, radix: nat, large: bool) {
    '0' <= c <= '9' || (radix == 16 && if large then 'A' <= c <= 'F' else 'a' <= c <= 'f')
  }

  /** `text` is the number `n` without needless zeros. */
  ghost predicate Numeral(text: string, radix: nat, large: bool, n: nat) {
    && text != "" && (text[0] == '0' ==> |text| == 1)
    && (forall i :: 0 <= i < |text| ==> IsNumeralChar(text[i], radix, large))
    && ValueOf(text, radix) == n
  }

  lemma DigitIs(d: nat, radix: nat, large: bool)
    requires d < radix <= 16 && (radix == 10 || radix == 16)
    ensures IsNumeralChar(Digit(d, large), radix, large) && (Digit(d, large) == '0' <==> d == 0)
  {
    var i: nat :| i == d;
    assert SMALL[d] == "0123456789abcdef"[i] && LARGE[d] == "0123456789ABCDEF"[i];
  }

  lemma {:induction false} DigitsNumeral(n: nat, radix: nat, large: bool)
    requires radix == 10 || radix == 16
    ensures Numeral(Digits(n, radix, large), radix, large, n) && (n > 0 ==> Digits(n, radix, large)[0] != '0')
  {
    DigitsReadBack(n, radix, large);
    if n < radix {
      DigitIs(n, radix, large);
    } else {
      var (q, r) := Split(n, radix);
      DigitsNumeral(q, radix, large);
      DigitIs(r, radix, large);
      assert Digits(n, radix, large)[0] == Digits(q, radix, large)[0];
    }
  }

  lemma CharBelow(c: char, radix: nat, large: bool)
    requires (radix == 10 || radix == 16) && IsNumeralChar(c, radix, large)
    ensures DigitValue(c) < radix && (DigitValue(c) == 0 <==> c == '0')
  {
  }

  lemma SameChar(c: char, d: char, radix: nat, large: bool)
    requires IsNumeralChar(c, radix, large) && IsNumeralChar(d, radix, large) && DigitValue(c) == DigitValue(d)
    ensures c == d
  {
  }

  /** Without its last digit a numeral is the quotient. */
  lemma {:induction false} NumeralSplit(text: string, radix: nat, large: bool, n: nat)
    requires (radix == 10 || radix == 16) && Numeral(text, radix, large, n)
    ensures var last := DigitValue(text[|text| - 1]);
      last < radix && n == ValueOf(text[..|text| - 1], radix) * radix + last
    ensures |text| > 1 ==> Numeral(text[..|text| - 1], radix, large, n / radix)
    ensures |text| == 1 <==> n < radix
  {
    var front, last := text[..|text| - 1], text[|text| - 1];
    CharBelow(last, radix, large);
    if |text| > 1 {
      NumeralSplit(front, radix, large, ValueOf(front, radix));
      CharBelow(front[0], radix, large);
      Quotient(n, ValueOf(front, radix), radix, DigitValue(last));
      Positive(front, radix, large);
    }
  }

  lemma Quotient(n: nat, q: nat, radix: nat, r: nat)
    requires (radix == 10 || radix == 16) && n == q * radix + r && r < radix
    ensures n / radix == q && n % radix == r
  {
  }

  lemma {:induction false} Positive(text: string, radix: nat, large: bool)
    requires radix == 10 || radix == 16
    requires text != "" && text[0] != '0' && forall i :: 0 <= i < |text| ==> IsNumeralChar(text[i], radix, large)
    ensures ValueOf(text, radix) > 0
  {
    CharBelow(text[0], radix, large);
    if |text| > 1 {
      Positive(text[..|text| - 1], radix, large);
    } else {
      assert text[..0] == "";
    }
  }

  /** A number has one numeral. */
  lemma {:induction false} NumeralUnique(a: string, b: string, radix: nat, large: bool, n: nat)
    requires (radix == 10 || radix == 16) && Numeral(a, radix, large, n) && Numeral(b, radix, large, n)
    ensures a == b
    decreases |a|
  {
    NumeralSplit(a, radix, large, n);
    NumeralSplit(b, radix, large, n);
    var x, y := a[|a| - 1], b[|b| - 1];
    Quotient(n, ValueOf(a[..|a| - 1], radix), radix, DigitValue(x));
    Quotient(n, ValueOf(b[..|b| - 1], radix), radix, DigitValue(y));
    SameChar(x, y, radix, large);
    if |a| > 1 {
      NumeralUnique(a[..|a| - 1], b[..|b| - 1], radix, large, n / radix);
    }
    assert a == a[..|a| - 1] + [x] && b == b[..|b| - 1] + [y];
  }

  // ------------------------------------------------------------------ numbers

  predicate IsSigned(c: char) { c == 'd' || c == 'i' }

  /** `%o` counts in sixteens too. */
  function CountsIn(c: char): nat { if c == 'd' || c == 'i' || c == 'u' then 10 else 16 }

  /** `n` is what the argument `w` means to the letter `c`: the whole word, or its low half with
      'h', signed for 'd' and 'i'. */
  predicate IsMeant(n: int, w: nat, qualifier: char, c: char) {
    var span := if qualifier == 'h' then HALF else WORD;
    (n - w) % span == 0 && if IsSigned(c) then -span <= 2 * n < span else 0 <= n < span
  }

  function Abs(n: int): nat { if n < 0 then -n else n }

  predicate SignIs(sign: string, n: int, c: char, flags: Flags) {
    sign == if n < 0 then "-" else if IsSigned(c) && flags.plus then "+" else if IsSigned(c) && flags.space then " " else ""
  }

  /** Sign and numeral in a field: zeros up to the precision, and the room that is left filled
      with blanks behind ('-'), with zeros behind the sign ('0'), or with blanks in front.  A
      precision of zero leaves the numeral out, but not its room. */
  ghost predicate Laid(text: string, sign: string, numeral: string, width: int, precision: int, flags: Flags) {
    var zeros := if precision > |numeral| then precision - |numeral| else 0;
    var body := Repeat('0', zeros) + if precision == 0 then "" else numeral;
    var room := width - |sign| - zeros - |numeral|;
    text == if flags.left then sign + body + Repeat(' ', room)
            else if flags.zeropad then sign + Repeat('0', room) + body
            else Repeat(' ', room) + sign + body
  }

  /** A conversion as it is read from a format: only the letter makes a number signed or its
      digits large. */
  predicate AsRead(v: Conversion) { !v.flags.sign && !v.flags.large }

  lemma ArgMeans(n: int, w: nat, qualifier: char, c: char)
    requires w < WORD && IsNumber(c) && IsMeant(n, w, qualifier, c)
    ensures var m := NumberArg(w, qualifier, IsSigned(c));
      if IsSigned(c) then m == n else Unsigned(m) == n
  {
  }

  lemma InFieldIsLaid(sign: string, digits: string, width: int, precision: int, flags: Flags)
    ensures Laid(InField(sign, Shape(digits, precision), width - Room(|digits|, precision) - |sign|, flags),
                 sign, digits, width, precision, flags)
  {
    var zeros := if precision > |digits| then precision - |digits| else 0;
    assert Repeat('0', precision - |digits|) == Repeat('0', zeros);
    assert width - Room(|digits|, precision) - |sign| == width - |sign| - zeros - |digits|;
  }

  lemma SignIsSign(m: int, n: int, c: char, flags: Flags)
    requires if IsSigned(c) then m == n else n >= 0
    requires !flags.sign
    ensures SignIs(SignOf(m, NumberFlags(flags, c)), n, c, flags)
  {
  }

  /** `text` shows the number `n` by the letter `c` in its field. */
  ghost predicate Shows(text: string, n: int, c: char, width: int, precision: int, flags: Flags) {
    exists sign, numeral ::
      && SignIs(sign, n, c, flags)
      && Numeral(numeral, CountsIn(c), c == 'X', Abs(n))
      && Laid(text, sign, numeral, width, precision, flags)
  }

  lemma ShowsBy(text: string, sign: string, numeral: string, n: int, c: char, width: int, precision: int, flags: Flags)
    requires SignIs(sign, n, c, flags) && Numeral(numeral, CountsIn(c), c == 'X', Abs(n))
    requires Laid(text, sign, numeral, width, precision, flags)
    ensures Shows(text, n, c, width, precision, flags)
  {
  }

  lemma LaidSame(text: string, sign: string, numeral: string, width: int, precision: int, flags: Flags, f: Flags)
    requires Laid(text, sign, numeral, width, precision, f) && f.left == flags.left && f.zeropad == flags.zeropad
    ensures Laid(text, sign, numeral, width, precision, flags)
  {
  }

  lemma FieldShows(m: int, n: int, c: char, base: nat, width: int, precision: int, flags: Flags, f: Flags)
    requires -(WORD / 2) <= m < WORD / 2 && Magnitude(m, f) == Abs(n) && SignIs(SignOf(m, f), n, c, flags)
    requires Radix(base) == CountsIn(c) && f.large == (c == 'X') && f.left == flags.left && f.zeropad == flags.zeropad
    ensures Shows(NumberText(m, base, width, precision, f), n, c, width, precision, flags)
  {
    var sign, numeral, text := SignOf(m, f), Digits(Abs(n), CountsIn(c), c == 'X'), NumberText(m, base, width, precision, f);
    DigitsNumeral(Abs(n), CountsIn(c), c == 'X');
    InFieldIsLaid(sign, numeral, width, precision, f);
    LaidSame(text, sign, numeral, width, precision, flags, f);
    ShowsBy(text, sign, numeral, n, c, width, precision, flags);
  }

  lemma ConvertedNumber(input: Input, v: Conversion)
    requires IsNumber(Peek(input.fmt, v.at))
    ensures var c := Peek(input.fmt, v.at); var f := NumberFlags(v.flags, c);
      Converted(input, v) == (NumberText(NumberArg(Word(input, v.next), v.qualifier, f.sign), BaseOf(c), v.width, v.precision, f), 1)
  {
  }

  /** Every number conversion shows the sign and the one numeral of the number meant, in the
      letter's radix and case, laid out as its flags, width and precision say. */
  lemma NumberMeans(input: Input, v: Conversion, n: int)
    requires var c := Peek(input.fmt, v.at); IsNumber(c) && IsMeant(n, Word(input, v.next), v.qualifier, c)
    requires AsRead(v)
    ensures var r := Converted(input, v);
      r.1 == 1 && Shows(r.0, n, Peek(input.fmt, v.at), v.width, v.precision, v.flags)
  {
    var c, w := Peek(input.fmt, v.at), Word(input, v.next);
    var m := NumberArg(w, v.qualifier, IsSigned(c));
    ConvertedNumber(input, v);
    ArgMeans(n, w, v.qualifier, c);
    SignIsSign(m, n, c, v.flags);
    FieldShows(m, n, c, BaseOf(c), v.width, v.precision, v.flags, NumberFlags(v.flags, c));
  }

  // ------------------------------------------------------------- numbers read back

  predicate IsHex(c: char) { '0' <= c <= '9' || 'a' <= c <= 'f' || 'A' <= c <= 'F' }

  /** How a reader takes a number off a text: blanks, a sign, digits as far as they go. */
  function AfterBlanks(text: string): string {
    if text != "" && text[0] == ' ' then AfterBlanks(text[1..]) else text
  }

  function DigitRun(text: string): string {
    if text != "" && IsHex(text[0]) then [text[0]] + DigitRun(text[1..]) else ""
  }

  function Read(t: string, radix: nat): int {
    if t == "" then 0
    else if t[0] == '-' then 0 - ValueOf(DigitRun(t[1..]), radix)
    else if t[0] == '+' then ValueOf(DigitRun(t[1..]), radix)
    else ValueOf(DigitRun(t), radix)
  }

  function Scan(text: string, radix: nat): int { Read(AfterBlanks(text), radix) }

  lemma {:induction false} BlanksSkipped(k: nat, text: string)
    ensures AfterBlanks(Repeat(' ', k) + text) == AfterBlanks(text)
    decreases k
  {
    var t := Repeat(' ', k) + text;
    if k > 0 {
      assert t[1..] == Repeat(' ', k - 1) + text;
      BlanksSkipped(k - 1, text);
    } else {
      assert t == text;
    }
  }

  lemma {:induction false} RunTaken(digits: string, rest: string)
    requires forall i :: 0 <= i < |digits| ==> IsHex(digits[i])
    requires rest == "" || !IsHex(rest[0])
    ensures DigitRun(digits + rest) == digits
  {
    if digits != "" {
      assert (digits + rest)[1..] == digits[1..] + rest;
      RunTaken(digits[1..], rest);
    } else {
      assert digits + rest == rest;
    }
  }

  lemma {:induction false} ZerosCountNothing(k: nat, text: string, radix: nat)
    ensures ValueOf(Repeat('0', k) + text, radix) == ValueOf(text, radix)
    decreases k + |text|
  {
    var t := Repeat('0', k) + text;
    if text != "" {
      assert t[..|t| - 1] == Repeat('0', k) + text[..|text| - 1];
      ZerosCountNothing(k, text[..|text| - 1], radix);
    } else if k > 0 {
      assert t[..|t| - 1] == Repeat('0', k - 1) + text;
      ZerosCountNothing(k - 1, text, radix);
    }
  }

  /** Digits as far as they go, without and with a sign. */
  lemma ReadDigits(t: string, digits: string, rest: string, radix: nat)
    requires t == digits + rest && digits != "" && forall i :: 0 <= i < |digits| ==> IsHex(digits[i])
    requires rest == "" || !IsHex(rest[0])
    ensures AfterBlanks(t) == t && Read(t, radix) == ValueOf(digits, radix)
  {
    RunTaken(digits, rest);
    assert t[0] == digits[0];
  }

  lemma ReadSigned(u: string, t: string, sign: char, digits: string, rest: string, radix: nat)
    requires t == digits + rest && digits != "" && forall i :: 0 <= i < |digits| ==> IsHex(digits[i])
    requires rest == "" || !IsHex(rest[0])
    requires u != "" && u[0] == sign && u[1..] == t && (sign == '-' || sign == '+' || sign == ' ')
    ensures Scan(u, radix) == if sign == '-' then 0 - ValueOf(digits, radix) else ValueOf(digits, radix)
  {
    ReadDigits(t, digits, rest, radix);
    RunTaken(digits, rest);
  }

  lemma ScanSigned(sign: string, digits: string, before: nat, behind: nat, radix: nat)
    requires sign == "" || sign == "-" || sign == "+" || sign == " "
    requires digits != "" && forall i :: 0 <= i < |digits| ==> IsHex(digits[i])
    ensures Scan(Repeat(' ', before) + sign + digits + Repeat(' ', behind), radix) ==
            if sign == "-" then 0 - ValueOf(digits, radix) else ValueOf(digits, radix)
  {
    var rest := Repeat(' ', behind);
    var t := digits + rest;
    var u := sign + t;
    BlanksSkipped(before, u);
    assert Repeat(' ', before) + sign + digits + rest == Repeat(' ', before) + u;
    if sign == "" {
      assert u == t;
      ReadDigits(t, digits, rest, radix);
    } else {
      assert u[0] == sign[0] && u[1..] == t;
      ReadSigned(u, t, sign[0], digits, rest, radix);
    }
  }

  lemma ZerosRun(k: nat, numeral: string, radix: nat, large: bool, n: nat)
    requires Numeral(numeral, radix, large, n)
    ensures var digits := Repeat('0', k) + numeral;
      digits != "" && ValueOf(digits, radix) == n && forall i :: 0 <= i < |digits| ==> IsHex(digits[i])
  {
    ZerosCountNothing(k, numeral, radix);
  }

  lemma LaidForm(text: string, sign: string, numeral: string, width: int, precision: int, flags: Flags)
      returns (before: nat, zeros: nat, behind: nat)
    requires Laid(text, sign, numeral, width, precision, flags) && precision != 0
    ensures text == Repeat(' ', before) + sign + (Repeat('0', zeros) + numeral) + Repeat(' ', behind)
  {
    var low := if precision > |numeral| then precision - |numeral| else 0;
    var room := width - |sign| - low - |numeral|;
    var shown := Repeat('0', low) + numeral;
    if flags.left {
      before, zeros, behind := 0, low, NoLess(room);
      Empty(sign, shown, Repeat(' ', room));
    } else if flags.zeropad {
      before, zeros, behind := 0, NoLess(room) + low, 0;
      ZerosJoin(room, low, numeral);
      Empty(sign, Repeat('0', room) + shown, "");
    } else {
      before, zeros, behind := NoLess(room), low, 0;
      Empty("", "", "");
    }
  }

  lemma Empty(sign: string, shown: string, behind: string)
    ensures Repeat(' ', 0) == "" && "" + sign + shown + behind == sign + shown + behind
    ensures forall t: string :: t + "" == t
  {
  }

  lemma ZerosJoin(room: int, low: nat, numeral: string)
    ensures Repeat('0', room) + (Repeat('0', low) + numeral) == Repeat('0', NoLess(room) + low) + numeral
  {
  }

  /** Read back in the letter's radix, the text of a number conversion is the number meant,
      whatever its flags and width, unless a precision of zero leaves the numeral out. */
  lemma ScansBack(input: Input, v: Conversion, n: int)
    requires var c := Peek(input.fmt, v.at); IsNumber(c) && IsMeant(n, Word(input, v.next), v.qualifier, c)
    requires AsRead(v) && v.precision != 0
    ensures Scan(Converted(input, v).0, CountsIn(Peek(input.fmt, v.at))) == n
  {
    var c, text := Peek(input.fmt, v.at), Converted(input, v).0;
    NumberMeans(input, v, n);
    var sign, numeral :| SignIs(sign, n, c, v.flags) && Numeral(numeral, CountsIn(c), c == 'X', Abs(n))
      && Laid(text, sign, numeral, v.width, v.precision, v.flags);
    var before, zeros, behind := LaidForm(text, sign, numeral, v.width, v.precision, v.flags);
    ZerosRun(zeros, numeral, CountsIn(c), c == 'X', Abs(n));
    ScanSigned(sign, Repeat('0', zeros) + numeral, before, behind, CountsIn(c));
  }

  // --------------------------------------------------------------- other letters

  /** `core` in a field of the width: at its left end, or at its right end, and blanks. */
  ghost predicate Padded(text: string, core: string, width: int, left: bool) {
    && |text| == (if width > |core| then width else |core|)
    && (if left then text[..|core|] == core else text[|text| - |core|..] == core)
    && forall i :: 0 <= i < |text| && (if left then |core| <= i else i < |text| - |core|) ==> text[i] == ' '
  }

  lemma PadIsPadded(core: string, width: int, left: bool)
    ensures Padded(Pad(core, width, left), core, width, left)
  {
  }

  /** `%c`: the character of the argument's low byte. */
  lemma CharMeans(input: Input, v: Conversion)
    requires Peek(input.fmt, v.at) == 'c'
    ensures var r := Converted(input, v);
      r.1 == 1 && exists c: char :: c as int == Word(input, v.next) % 256 && Padded(r.0, [c], v.width, v.flags.left)
  {
    var c := (Word(input, v.next) % 256) as char;
    PadIsPadded([c], v.width, v.flags.left);
    assert c as int == Word(input, v.next) % 256;
  }

  /** `n` is the least of the length, the width if one is given, and the precision if it is
      positive. */
  predicate CutsAt(n: nat, length: nat, width: int, precision: int) {
    && n <= length && (width >= 0 ==> n <= width) && (precision > 0 ==> n <= precision)
    && (n == length || n == width || (precision > 0 && n == precision))
  }

  lemma ShownCuts(s: string, width: int, precision: int)
    ensures var shown := Shown(s, width, precision);
      CutsAt(|shown|, |s|, width, precision) && s[..|shown|] == shown
  {
  }

  /** `%s`: the string up to its NUL, cut and padded; `(NULL)` for a null pointer. */
  lemma StringMeans(input: Input, v: Conversion, s: string)
    requires Peek(input.fmt, v.at) == 's'
    requires if Word(input, v.next) == 0 then s == "(NULL)" else s == CString(input.str(Word(input, v.next)))
    ensures var r := Converted(input, v);
      r.1 == 1 && exists n: nat :: CutsAt(n, |s|, v.width, v.precision) && Padded(r.0, s[..n], v.width, v.flags.left)
  {
    if Word(input, v.next) == 0 { NullWhole("(NULL)"); }
    var shown := Shown(s, v.width, v.precision);
    ShownCuts(s, v.width, v.precision);
    PadIsPadded(shown, v.width, v.flags.left);
  }

  lemma {:induction false} NullWhole(s: string)
    requires '\0' !in s
    ensures CString(s) == s
  {
    if s != "" {
      assert s[0] in s;
      NullWhole(s[1..]);
    }
  }

  /** `%p`: the word in small hexadecimal digits, unsigned; without a width in a field of eight
      padded with zeros. */
  lemma PointerMeans(input: Input, v: Conversion)
    requires Peek(input.fmt, v.at) == 'p' && AsRead(v)
    ensures var r, bare := Converted(input, v), v.width == -1;
      r.1 == 1 && Shows(r.0, Word(input, v.next), 'x', if bare then 8 else v.width, v.precision,
                        v.flags.(zeropad := v.flags.zeropad || bare))
  {
    var w, bare := Word(input, v.next), v.width == -1;
    var f := v.flags.(zeropad := v.flags.zeropad || bare);
    FieldShows(Signed(w), w, 'x', 16, if bare then 8 else v.width, v.precision, f, f);
  }

  /** What shows no argument: `%%`, an unknown letter behind its '%', and a '%' with nothing
      behind it. */
  lemma OthersMean(input: Input, v: Conversion)
    requires var c := Peek(input.fmt, v.at); !IsNumber(c) && c != 'c' && c != 's' && c != 'p'
    ensures var c, r := Peek(input.fmt, v.at), Converted(input, v);
      r.1 == 0 && r.0 == if c == '%' || c == '\0' then "%" else "%" + [c]
  {
  }
}
