/** What rt_vsnprintf of rt-thread/src/kservice.c writes when the buffer is large enough, as a
    text.  Arguments are 32-bit words; a word used by `%s` names a string. */
module FormatSpec {
  const WORD: nat := 0x1_0000_0000
  const HALF: nat := 0x1_0000

  datatype Flags = Flags(zeropad: bool, sign: bool, plus: bool, space: bool, left: bool, special: bool, large: bool)

  const NO_FLAGS := Flags(false, false, false, false, false, false, false)

  /** The variable arguments and the strings they may point to. */
  datatype Input = Input(fmt: string, arg: nat -> nat, str: nat -> string)

  function Word(input: Input, a: nat): nat { input.arg(a) % WORD }

  function Signed(w: nat): int
    requires w < WORD
  {
    if w < WORD / 2 then w else w - WORD
  }

  function Unsigned(n: int): nat
    requires -(WORD / 2) <= n < WORD / 2
  {
    if n < 0 then n + WORD else n
  }

  // ------------------------------------------------------------------ reading

  /** The format is NUL-terminated. */
  function Peek(fmt: string, i: nat): char { if i < |fmt| then fmt[i] else '\0' }

  predicate IsDigit(c: char) { '0' <= c <= '9' }

  function DigitOf(c: char): nat
    requires IsDigit(c)
  {
    c as int - '0' as int
  }

  predicate IsFlag(c: char) { c == '-' || c == '+' || c == ' ' || c == '#' || c == '0' }

  function WithFlag(flags: Flags, c: char): Flags {
    if c == '-' then flags.(left := true)
    else if c == '+' then flags.(plus := true)
    else if c == ' ' then flags.(space := true)
    else if c == '#' then flags.(special := true)
    else if c == '0' then flags.(zeropad := true)
    else flags
  }

  function ReadFlags(fmt: string, i: nat, flags: Flags): (r: (Flags, nat))
    ensures i <= r.1 && (i <= |fmt| ==> r.1 <= |fmt|) && !IsFlag(Peek(fmt, r.1))
    decreases |fmt| - i
  {
    if i < |fmt| && IsFlag(fmt[i]) then ReadFlags(fmt, i + 1, WithFlag(flags, fmt[i])) else (flags, i)
  }

  /** The decimal number at `i`, read on from `acc`. */
  function ReadNumber(fmt: string, i: nat, acc: nat): (r: (nat, nat))
    ensures i <= r.1 && (i <= |fmt| ==> r.1 <= |fmt|) && !IsDigit(Peek(fmt, r.1))
    decreases |fmt| - i
  {
    if i < |fmt| && IsDigit(fmt[i]) then ReadNumber(fmt, i + 1, acc * 10 + DigitOf(fmt[i])) else (acc, i)
  }

  /** A conversion as far as its letter: the letter is at `at`, `next` is the next argument. */
  datatype Conversion = Conversion(flags: Flags, width: int, precision: int, qualifier: char, at: nat, next: nat)

  function ReadWidth(input: Input, i: nat, a: nat, flags: Flags): (r: Conversion)
    ensures i <= r.at && (i <= |input.fmt| ==> r.at <= |input.fmt|)
  {
    var c := Peek(input.fmt, i);
    if IsDigit(c) then
      var (width, j) := ReadNumber(input.fmt, i, 0);
      Conversion(flags, width, -1, '\0', j, a)
    else if c == '*' then
      var w := Signed(Word(input, a));
      if w < 0 then Conversion(flags.(left := true), -w, -1, '\0', i + 1, a + 1)
      else Conversion(flags, w, -1, '\0', i + 1, a + 1)
    else Conversion(flags, -1, -1, '\0', i, a)
  }

  function NoLess(n: int): nat { if n < 0 then 0 else n }

  function ReadPrecision(input: Input, v: Conversion): (r: Conversion)
    ensures v.at <= r.at && (v.at <= |input.fmt| ==> r.at <= |input.fmt|)
  {
    if Peek(input.fmt, v.at) != '.' then v
    else
      var c := Peek(input.fmt, v.at + 1);
      if IsDigit(c) then
        var (precision, j) := ReadNumber(input.fmt, v.at + 1, 0);
        v.(precision := precision, at := j)
      else if c == '*' then
        v.(precision := NoLess(Signed(Word(input, v.next))), at := v.at + 2, next := v.next + 1)
      else v.(precision := 0, at := v.at + 1)
  }

  function ReadQualifier(fmt: string, v: Conversion): (r: Conversion)
    ensures v.at <= r.at && (v.at <= |fmt| ==> r.at <= |fmt|)
  {
    var c := Peek(fmt, v.at);
    if c == 'h' || c == 'l' then v.(qualifier := c, at := v.at + 1) else v
  }

  /** The conversion whose '%' is at `i`. */
  function ReadConversion(input: Input, i: nat, a: nat): (r: Conversion)
    requires i < |input.fmt|
    ensures i < r.at <= |input.fmt|
  {
    var (flags, j) := ReadFlags(input.fmt, i + 1, NO_FLAGS);
    ReadQualifier(input.fmt, ReadPrecision(input, ReadWidth(input, j, a, flags)))
  }

  // ------------------------------------------------------------------ writing

  function Repeat(c: char, n: int): (r: string)
    ensures |r| == NoLess(n) && forall i :: 0 <= i < |r| ==> r[i] == c
  {
    seq(NoLess(n), _ => c)
  }

  /** Text in a field: blanks before it, or after it when left-justified. */
  function Pad(text: string, width: int, left: bool): string {
    var blanks := Repeat(' ', width - |text|);
    if left then text + blanks else blanks + text
  }

  const SMALL := "0123456789abcdef"
  const LARGE := "0123456789ABCDEF"

  /** `divide` knows the bases 10 and 16 only: every other base counts as 16. */
  function Radix(base: nat): nat { if base == 10 then 10 else 16 }

  function Digit(d: nat, large: bool): char
    requires d < 16
  {
    if large then LARGE[d] else SMALL[d]
  }

  predicate IsRadix(radix: nat) { radix == 8 || radix == 10 || radix == 16 }

  /** n / radix and n % radix */
  function Split(n: nat, radix: nat): (r: (nat, nat))
    requires IsRadix(radix)
    ensures r.1 < radix && (radix <= n ==> 0 < r.0 < n)
  {
    if radix == 8 then (n / 8, n % 8) else if radix == 10 then (n / 10, n % 10) else (n / 16, n % 16)
  }

  function Digits(n: nat, radix: nat, large: bool): string
    requires IsRadix(radix)
  {
    if n < radix then [Digit(n, large)]
    else Digits(Split(n, radix).0, radix, large) + [Digit(Split(n, radix).1, large)]
  }

  function SignOf(n: int, flags: Flags): string {
    if !flags.sign then ""
    else if n < 0 then "-"
    else if flags.plus then "+"
    else if flags.space then " "
    else ""
  }

  function Magnitude(n: int, flags: Flags): nat
    requires -(WORD / 2) <= n < WORD / 2
  {
    if flags.sign && n < 0 then -n else Unsigned(n)
  }

  /** The digits with zeros in front up to the precision; an explicit precision of zero
      suppresses every digit. */
  function Shape(digits: string, precision: int): string {
    Repeat('0', precision - |digits|) + (if precision == 0 then "" else digits)
  }

  /** The room a number takes in its field, suppressed digits included. */
  function Room(digits: nat, precision: int): nat { if digits > precision then digits else precision }

  /** Left-justified, zero-padded behind the sign, or right-justified. */
  function InField(sign: string, body: string, room: int, flags: Flags): string {
    if flags.left then sign + body + Repeat(' ', room)
    else if flags.zeropad then sign + Repeat('0', room) + body
    else Repeat(' ', room) + sign + body
  }

  function NumberText(n: int, base: nat, width: int, precision: int, flags: Flags): string
    requires -(WORD / 2) <= n < WORD / 2
  {
    var sign := SignOf(n, flags);
    var digits := Digits(Magnitude(n, flags), Radix(base), flags.large);
    InField(sign, Shape(digits, precision), width - Room(|digits|, precision) - |sign|, flags)
  }

  /** How much of a string is shown: at most the width, if one is given, and at most the
      precision, if it is positive. */
  function Shown(s: string, width: int, precision: int): string {
    var n := if 0 <= width < |s| then width else |s|;
    if 0 < precision < n then s[..precision] else s[..n]
  }

  /** A string ends at its first NUL. */
  function CString(s: string): (r: string)
    ensures |r| <= |s| && r == s[..|r|] && '\0' !in r && (|r| < |s| ==> s[|r|] == '\0')
  {
    if s == "" || s[0] == '\0' then "" else [s[0]] + CString(s[1..])
  }

  function StringArg(input: Input, a: nat): string {
    if Word(input, a) == 0 then "(NULL)" else input.str(Word(input, a))
  }

  /** The argument of a number conversion, as a `long`. */
  function NumberArg(w: nat, qualifier: char, sign: bool): (n: int)
    requires w < WORD
    ensures -(WORD / 2) <= n < WORD / 2
  {
    if qualifier == 'h' then
      var h := w % HALF;
      if sign && h >= HALF / 2 then h - HALF else h
    else Signed(w)
  }

  function BaseOf(c: char): nat {
    if c == 'o' then 8 else if c == 'x' || c == 'X' then 16 else 10
  }

  predicate IsNumber(c: char) { c == 'o' || c == 'x' || c == 'X' || c == 'd' || c == 'i' || c == 'u' }

  function NumberFlags(flags: Flags, c: char): Flags {
    flags.(large := flags.large || c == 'X', sign := flags.sign || c == 'd' || c == 'i')
  }

  /** The text of a conversion, and how many arguments its letter takes. */
  function Converted(input: Input, v: Conversion): (r: (string, nat)) {
    var c := Peek(input.fmt, v.at);
    if c == 'c' then (Pad([(Word(input, v.next) % 256) as char], v.width, v.flags.left), 1)
    else if c == 's' then (Pad(Shown(CString(StringArg(input, v.next)), v.width, v.precision), v.width, v.flags.left), 1)
    else if c == 'p' then
      var width := if v.width == -1 then 8 else v.width;
      (NumberText(Signed(Word(input, v.next)), 16, width, v.precision,
                  v.flags.(zeropad := v.flags.zeropad || v.width == -1)), 1)
    else if c == '%' then ("%", 0)
    else if IsNumber(c) then
      var flags := NumberFlags(v.flags, c);
      (NumberText(NumberArg(Word(input, v.next), v.qualifier, flags.sign), BaseOf(c), v.width, v.precision, flags), 1)
    else if c == '\0' then ("%", 0)
    else (['%', c], 0)
  }

  /** Where the format goes on: behind the letter, or at the end if there is none. */
  function After(fmt: string, v: Conversion): nat {
    if Peek(fmt, v.at) == '\0' then v.at else v.at + 1
  }

  /** The whole text from position `i` of the format and argument `a` on. */
  function Render(input: Input, i: nat, a: nat): string
    decreases |input.fmt| - i
  {
    if Peek(input.fmt, i) == '\0' then ""
    else if input.fmt[i] != '%' then [input.fmt[i]] + Render(input, i + 1, a)
    else
      var v := ReadConversion(input, i, a);
      var (text, used) := Converted(input, v);
      text + Render(input, After(input.fmt, v), v.next + used)
  }
}
