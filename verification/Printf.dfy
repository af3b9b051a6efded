/** rt_vsnprintf and print_number of rt-thread/src/kservice.c, writing into a buffer.  `str`
    and `size` stand for the pointer differences str - buf and end - buf. */
module Printf {
  import opened FormatSpec
  import opened FormatLaws

  /** The first `size` places of `mem` hold what fits of `text`; all else is as before. */
  ghost predicate Out(before: seq<char>, mem: seq<char>, size: nat, text: string) {
    && |mem| == |before|
    && forall k :: 0 <= k < |mem| ==> mem[k] == if k < size && k < |text| then text[k] else before[k]
  }

  /** Where the output has got to: `str` characters of `text`, kept or not. */
  ghost predicate Written(before: seq<char>, mem: seq<char>, size: nat, str: nat, text: string) {
    size <= |before| && str == |text| && Out(before, mem, size, text)
  }

  /** if (str < end) *str = c; ++str */
  method Put(buf: array<char>, size: nat, str0: nat, c: char, ghost before: seq<char>, ghost text: string) returns (str: nat)
    requires Written(before, buf[..], size, str0, text)
    modifies buf
    ensures Written(before, buf[..], size, str, text + [c])
  {
    if str0 < size {
      buf[str0] := c;
    }
    str := str0 + 1;
  }

  lemma RepeatMore(text: string, c: char, n: nat)
    ensures text + Repeat(c, n) + [c] == text + Repeat(c, n + 1)
    ensures text + Repeat(c, 0) == text
  {
  }

  /** while (n-- > 0) put c; `rest` is what that leaves in n. */
  method Fill(buf: array<char>, end: nat, str0: nat, c: char, n: int, ghost before: seq<char>, ghost text: string)
    returns (str: nat, rest: int)
    requires Written(before, buf[..], end, str0, text)
    modifies buf
    ensures Written(before, buf[..], end, str, text + Repeat(c, n))
    ensures rest == if n > 0 then -1 else n - 1
  {
    str, rest := str0, n;
    RepeatMore(text, c, 0);
    while rest > 0
      invariant rest <= n && (n > 0 ==> rest >= 0) && (n <= 0 ==> rest == n)
      invariant Written(before, buf[..], end, str, text + Repeat(c, n - rest))
    {
      str := Put(buf, end, str, c, before, text + Repeat(c, n - rest));
      RepeatMore(text, c, n - rest);
      rest := rest - 1;
    }
    rest := rest - 1;
  }

  // ------------------------------------------------------------------ numbers

  /** divide: one digit off a `long` taken as unsigned. */
  method Divide(n: int, base: nat) returns (res: nat, rest: int)
    requires -(WORD / 2) <= n < WORD / 2
    ensures -(WORD / 2) <= rest < WORD / 2
    ensures (Unsigned(rest), res) == Split(Unsigned(n), Radix(base))
  {
    if base == 10 {
      res := Unsigned(n) % 10;
      rest := Signed(Unsigned(n) / 10);
    } else {
      res := Unsigned(n) % 16;
      rest := Signed(Unsigned(n) / 16);
    }
  }

  /** The digits still to come: none for zero. */
  ghost function Leading(n: nat, radix: nat, large: bool): string
    requires IsRadix(radix)
  {
    if n == 0 then "" else Digits(n, radix, large)
  }

  lemma {:induction false} LastDigit(n: nat, radix: nat, large: bool)
    requires IsRadix(radix) && n > 0
    ensures var (q, r) := Split(n, radix);
      Leading(n, radix, large) == Leading(q, radix, large) + [Digit(r, large)]
  {
  }

  /** The digits of `num`, last first, into print_number's 16 characters. */
  method DigitsInto(tmp: array<char>, num0: int, base: nat, large: bool) returns (i: nat)
    requires tmp.Length == 16 && -(WORD / 2) <= num0 < WORD / 2
    modifies tmp
    ensures Backwards(tmp[..], i, Digits(Unsigned(num0), Radix(base), large)) && i <= 10
  {
    var num := num0;
    ghost var all, done := Digits(Unsigned(num0), Radix(base), large), "";
    WordFits(Unsigned(num0), base, large);
    i := 0;
    if num == 0 {
      tmp[0] := '0';
      i := 1;
    } else {
      while num != 0
        invariant -(WORD / 2) <= num < WORD / 2
        invariant all == Leading(Unsigned(num), Radix(base), large) + done
        invariant Backwards(tmp[..], i, done)
        decreases Unsigned(num)
      {
        var d, rest := Divide(num, base);
        LastDigit(Unsigned(num), Radix(base), large);
        DigitFits(all, Leading(Unsigned(rest), Radix(base), large), Digit(d, large), done);
        tmp[i] := Digit(d, large);
        done := [Digit(d, large)] + done;
        num := rest;
        i := i + 1;
      }
    }
  }

  /** The first `i` characters of `tmp` are `text` backwards. */
  ghost predicate Backwards(tmp: seq<char>, i: nat, text: string) {
    i == |text| <= |tmp| && forall k :: 0 <= k < i ==> tmp[k] == text[i - 1 - k]
  }

  lemma DigitFits(all: string, rest: string, c: char, done: string)
    requires all == rest + [c] + done
    ensures |done| < |all| && all == rest + ([c] + done)
  {
  }

  /** Negation of a 32-bit `long`. */
  function Negate(n: int): int {
    if n == -(WORD / 2) then n else -n
  }

  /** while (i-- > 0) put tmp[i] */
  method PutDigits(buf: array<char>, end: nat, str0: nat, tmp: array<char>, n: nat, ghost digits: string,
                   ghost before: seq<char>, ghost text: string)
    returns (str: nat)
    requires Written(before, buf[..], end, str0, text) && tmp != buf && Backwards(tmp[..], n, digits)
    modifies buf
    ensures Written(before, buf[..], end, str, text + digits)
  {
    str := str0;
    var i := n;
    assert text + digits[..0] == text;
    while i > 0
      invariant 0 <= i <= n
      invariant Written(before, buf[..], end, str, text + digits[..n - i])
    {
      i := i - 1;
      str := Put(buf, end, str, tmp[i], before, text + digits[..n - i - 1]);
      assert text + digits[..n - i - 1] + [digits[n - i - 1]] == text + digits[..n - i];
    }
    assert digits[..n] == digits;
  }

  /** What print_number writes before the number itself: blanks, sign, and blanks or zeros. */
  method PrintLead(buf: array<char>, end: nat, str0: nat, sign: string, size0: int, flags: Flags,
                   ghost before: seq<char>, ghost text: string)
    returns (str: nat, size: int, ghost p1: int, ghost p2: int)
    requires Written(before, buf[..], end, str0, text) && |sign| <= 1
    modifies buf
    ensures Written(before, buf[..], end, str, text + Repeat(' ', p1) + sign + Repeat(PadChar(flags), p2))
    ensures Lead(flags, size0 - |sign|, p1, p2, size)
  {
    var zeropad, c := flags.zeropad && !flags.left, PadChar(flags);
    str, size, p1, p2 := str0, size0, 0, 0;
    RepeatMore(text, ' ', 0);
    if !zeropad && !flags.left {
      if sign != "" && size > 0 {
        size := size - 1;
      }
      p1 := size;
      str, size := Fill(buf, end, str, ' ', size, before, text);
    }
    ghost var t1 := text + Repeat(' ', p1);
    assert t1 + "" == t1;
    if sign != "" {
      assert sign == [sign[0]];
      str := Put(buf, end, str, sign[0], before, t1);
      size := size - 1;
    }
    RepeatMore(t1 + sign, c, 0);
    if !flags.left {
      p2 := size;
      str, size := Fill(buf, end, str, c, size, before, t1 + sign);
    }
  }

  function PadChar(flags: Flags): char { if flags.zeropad && !flags.left then '0' else ' ' }

  /** How the room of a field is spent before (p1), behind the sign (p2) and at the end (p3). */
  ghost predicate Lead(flags: Flags, room: int, p1: int, p2: int, p3: int) {
    if flags.left then p1 == 0 && p2 == 0 && p3 == room
    else if flags.zeropad then p1 == 0 && p2 == room && p3 < 0
    else (p1 == room || (p1 <= 0 && room <= 0)) && p2 < 0 && p3 < 0
  }

  /** Everything print_number writes once it knows the sign and the digits. */
  method PrintField(buf: array<char>, end: nat, str0: nat, sign: string, tmp: array<char>, i: nat,
                    size0: int, precision0: int, flags: Flags, ghost digits: string, ghost before: seq<char>, ghost text: string)
    returns (str: nat)
    requires Written(before, buf[..], end, str0, text) && tmp != buf && Backwards(tmp[..], i, digits) && |sign| <= 1
    modifies buf
    ensures Written(before, buf[..], end, str,
                    text + InField(sign, Shape(digits, precision0), size0 - Room(|digits|, precision0) - |sign|, flags))
  {
    var precision, size, rest := precision0, size0, 0;
    if i > precision {
      precision := i;
    }
    ghost var p1, p2;
    str, size, p1, p2 := PrintLead(buf, end, str0, sign, size - precision, flags, before, text);
    ghost var t3 := text + Repeat(' ', p1) + sign + Repeat(PadChar(flags), p2);
    str, rest := Fill(buf, end, str, '0', precision - i, before, t3);
    ghost var t4 := t3 + Repeat('0', precision - i);
    assert t4 + "" == t4;
    if precision0 != 0 {
      str := PutDigits(buf, end, str, tmp, i, digits, before, t4);
    }
    ghost var t5 := t4 + (if precision0 == 0 then "" else digits);
    Assembled(text, sign, digits, precision0, size0 - precision - |sign|, flags, p1, p2, size);
    str, rest := Fill(buf, end, str, ' ', size, before, t5);
  }

  lemma Assembled(text: string, sign: string, digits: string, precision: int, room: int, flags: Flags,
                  p1: int, p2: int, p3: int)
    requires |sign| <= 1 && Lead(flags, room, p1, p2, p3)
    ensures text + Repeat(' ', p1) + sign + Repeat(PadChar(flags), p2) + Repeat('0', Room(|digits|, precision) - |digits|)
              + (if precision == 0 then "" else digits) + Repeat(' ', p3)
            == text + InField(sign, Shape(digits, precision), room, flags)
  {
    var zeros, shown := Repeat('0', precision - |digits|), if precision == 0 then "" else digits;
    assert Repeat('0', Room(|digits|, precision) - |digits|) == zeros;
    var blanks, c := Repeat(' ', room), PadChar(flags);
    if flags.left {
      Pieces(text, "", sign, "", zeros, shown, blanks);
      assert Repeat(' ', p1) == "" && Repeat(c, p2) == "";
    } else if flags.zeropad {
      Pieces(text, "", sign, Repeat('0', room), zeros, shown, "");
      assert Repeat(' ', p1) == "" && Repeat(' ', p3) == "";
    } else {
      Pieces(text, blanks, sign, "", zeros, shown, "");
      assert Repeat(' ', p1) == blanks && Repeat(c, p2) == "" && Repeat(' ', p3) == "";
    }
  }

  lemma Pieces(text: string, a: string, sign: string, b: string, zeros: string, shown: string, c: string)
    ensures text + a + sign + b + zeros + shown + c == text + (a + (sign + (b + ((zeros + shown) + c))))
    ensures a == "" && b == "" ==> text + a + sign + b + zeros + shown + c == text + (sign + (zeros + shown) + c)
    ensures a == "" && c == "" ==> text + a + sign + b + zeros + shown + c == text + (sign + b + (zeros + shown))
    ensures b == "" && c == "" ==> text + a + sign + b + zeros + shown + c == text + (a + sign + (zeros + shown))
  {
  }

  /** The sign of a number and what is left to print in digits. */
  method TakeSign(num0: int, flags: Flags) returns (num: int, sign: string)
    requires -(WORD / 2) <= num0 < WORD / 2
    ensures -(WORD / 2) <= num < WORD / 2 && Unsigned(num) == Magnitude(num0, flags)
    ensures sign == SignOf(num0, flags) && |sign| <= 1
  {
    num, sign := num0, "";
    if flags.sign {
      if num < 0 {
        sign := "-";
        num := Negate(num);
      } else if flags.plus {
        sign := "+";
      } else if flags.space {
        sign := " ";
      }
    }
  }

  method PrintNumber(buf: array<char>, end: nat, str0: nat, num0: int, base: nat, s: int, precision: int, flags: Flags,
                     ghost before: seq<char>, ghost text: string)
    returns (str: nat)
    requires -(WORD / 2) <= num0 < WORD / 2 && Written(before, buf[..], end, str0, text)
    modifies buf
    ensures Written(before, buf[..], end, str, text + NumberText(num0, base, s, precision, flags))
  {
    var num, sign := TakeSign(num0, flags);
    var tmp := new char[16];
    var i := DigitsInto(tmp, num, base, flags.large);
    str := PrintField(buf, end, str0, sign, tmp, i, s, precision, flags,
                      Digits(Unsigned(num), Radix(base), flags.large), before, text);
  }

  // --------------------------------------------------------------- conversions

  method SkipFlags(fmt: string, i0: nat) returns (flags: Flags, i: nat)
    requires i0 <= |fmt|
    ensures (flags, i) == ReadFlags(fmt, i0, NO_FLAGS)
  {
    flags, i := NO_FLAGS, i0;
    while i < |fmt| && IsFlag(fmt[i])
      invariant i <= |fmt| && ReadFlags(fmt, i, flags) == ReadFlags(fmt, i0, NO_FLAGS)
    {
      flags := WithFlag(flags, fmt[i]);
      i := i + 1;
    }
  }

  method SkipAtoi(fmt: string, i0: nat) returns (n: nat, i: nat)
    requires i0 <= |fmt|
    ensures (n, i) == ReadNumber(fmt, i0, 0)
  {
    n, i := 0, i0;
    while i < |fmt| && IsDigit(fmt[i])
      invariant i <= |fmt| && ReadNumber(fmt, i, n) == ReadNumber(fmt, i0, 0)
    {
      n := n * 10 + DigitOf(fmt[i]);
      i := i + 1;
    }
  }

  /** The field width at `i0`; a negative one given as an argument means left-justified. */
  method WidthAt(input: Input, i0: nat, a0: nat, flags0: Flags) returns (v: Conversion)
    requires i0 <= |input.fmt|
    ensures v == ReadWidth(input, i0, a0, flags0)
  {
    var flags, width, i, a := flags0, -1, i0, a0;
    if IsDigit(Peek(input.fmt, i)) {
      width, i := SkipAtoi(input.fmt, i);
    } else if Peek(input.fmt, i) == '*' {
      i := i + 1;
      width := Signed(Word(input, a));
      a := a + 1;
      if width < 0 {
        width := -width;
        flags := flags.(left := true);
      }
    }
    v := Conversion(flags, width, -1, '\0', i, a);
  }

  /** The precision behind the width `v0`; a negative one counts as zero. */
  method PrecisionAt(input: Input, v0: Conversion) returns (v: Conversion)
    requires v0.at <= |input.fmt|
    ensures v == ReadPrecision(input, v0)
  {
    v := v0;
    if Peek(input.fmt, v0.at) == '.' {
      var precision, i, a := -1, v0.at + 1, v0.next;
      if IsDigit(Peek(input.fmt, i)) {
        precision, i := SkipAtoi(input.fmt, i);
      } else if Peek(input.fmt, i) == '*' {
        i := i + 1;
        precision := Signed(Word(input, a));
        a := a + 1;
      }
      if precision < 0 {
        precision := 0;
      }
      v := v.(precision := precision, at := i, next := a);
    }
  }

  /** Flags, width, precision and qualifier of the conversion whose '%' is at `i0`. */
  method Directive(input: Input, i0: nat, a0: nat) returns (v: Conversion)
    requires i0 < |input.fmt|
    ensures v == ReadConversion(input, i0, a0)
  {
    var flags, i := SkipFlags(input.fmt, i0 + 1);
    v := WidthAt(input, i, a0, flags);
    v := PrecisionAt(input, v);
    var c := Peek(input.fmt, v.at);
    if c == 'h' || c == 'l' {
      v := v.(qualifier := c, at := v.at + 1);
    }
  }

  /** case 'c' */
  method PutChar(buf: array<char>, size: nat, str0: nat, c: char, width0: int, left: bool, ghost before: seq<char>, ghost text: string)
    returns (str: nat)
    requires Written(before, buf[..], size, str0, text)
    modifies buf
    ensures Written(before, buf[..], size, str, text + Pad([c], width0, left))
  {
    var width, rest := width0, 0;
    str := str0;
    ghost var lead := "";
    assert text + "" == text;
    if !left {
      lead := Repeat(' ', width - 1);
      str, rest := Fill(buf, size, str, ' ', width - 1, before, text);
      width := rest + 1;
    }
    str := Put(buf, size, str, c, before, text + lead);
    str, rest := Fill(buf, size, str, ' ', width - 1, before, text + lead + [c]);
    PadIs(text, [c], lead, Repeat(' ', width - 1), width0, left);
  }

  lemma PadIs(text: string, shown: string, lead: string, trail: string, width: int, left: bool)
    requires if left then lead == "" && trail == Repeat(' ', width - |shown|)
             else lead == Repeat(' ', width - |shown|) && trail == ""
    ensures text + lead + shown + trail == text + Pad(shown, width, left)
  {
  }

  /** The length of the string `s`, but no more than `width` unless that is negative. */
  method Length(s: string, width: int) returns (len: nat)
    ensures len == (var n := |CString(s)|; if 0 <= width < n then width else n)
  {
    len := 0;
    while len != width && len < |s| && s[len] != '\0'
      invariant len <= |CString(s)| && (width >= 0 ==> len <= width)
      decreases |s| - len
    {
      assert len < |CString(s)|;
      len := len + 1;
    }
  }

  /** The first `len` characters of `s`. */
  method PutChars(buf: array<char>, size: nat, str0: nat, s: string, len: nat, ghost before: seq<char>, ghost text: string)
    returns (str: nat)
    requires Written(before, buf[..], size, str0, text) && len <= |s|
    modifies buf
    ensures Written(before, buf[..], size, str, text + s[..len])
  {
    str := str0;
    assert text + s[..0] == text;
    for i := 0 to len
      invariant Written(before, buf[..], size, str, text + s[..i])
    {
      str := Put(buf, size, str, s[i], before, text + s[..i]);
      assert text + s[..i] + [s[i]] == text + s[..i + 1];
    }
  }

  /** case 's' */
  method PutString(buf: array<char>, size: nat, str0: nat, s: string, width0: int, precision: int, left: bool,
                   ghost before: seq<char>, ghost text: string)
    returns (str: nat)
    requires Written(before, buf[..], size, str0, text)
    modifies buf
    ensures Written(before, buf[..], size, str, text + Pad(Shown(CString(s), width0, precision), width0, left))
  {
    var width, rest := width0, 0;
    var len := Length(s, width);
    if precision > 0 && len > precision {
      len := precision;
    }
    ghost var shown := Shown(CString(s), width0, precision);
    assert |shown| == len && shown == s[..len];
    str := str0;
    ghost var lead := "";
    assert text + "" == text;
    if !left {
      lead := Repeat(' ', width - len);
      str, rest := Fill(buf, size, str, ' ', width - len, before, text);
      width := len + rest;
    }
    str := PutChars(buf, size, str, s, len, before, text + lead);
    str, rest := Fill(buf, size, str, ' ', width - len, before, text + lead + shown);
    PadIs(text, shown, lead, Repeat(' ', width - len), width0, left);
  }

  /** The letters that print a number. */
  method ConvertNumber(buf: array<char>, size: nat, str0: nat, c: char, w: nat, v: Conversion, ghost before: seq<char>, ghost text: string)
    returns (str: nat)
    requires Written(before, buf[..], size, str0, text) && IsNumber(c) && w < WORD
    modifies buf
    ensures var flags := NumberFlags(v.flags, c);
      Written(before, buf[..], size, str,
              text + NumberText(NumberArg(w, v.qualifier, flags.sign), BaseOf(c), v.width, v.precision, flags))
  {
    var flags, base := v.flags, 10;
    if c == 'o' {
      base := 8;
    } else if c == 'x' || c == 'X' {
      flags := flags.(large := flags.large || c == 'X');
      base := 16;
    } else if c != 'u' {
      flags := flags.(sign := true);
    }
    str := PrintNumber(buf, size, str0, NumberArg(w, v.qualifier, flags.sign), base, v.width, v.precision, flags, before, text);
  }

  /** The switch on the conversion letter; `used` counts the arguments it takes. */
  method Convert(buf: array<char>, size: nat, str0: nat, input: Input, v: Conversion, ghost before: seq<char>, ghost text: string)
    returns (str: nat, used: nat)
    requires Written(before, buf[..], size, str0, text)
    modifies buf
    ensures Written(before, buf[..], size, str, text + Converted(input, v).0) && used == Converted(input, v).1
  {
    var flags, c, w := v.flags, Peek(input.fmt, v.at), Word(input, v.next);
    str, used := str0, 1;
    if c == 'c' {
      str := PutChar(buf, size, str, (w % 256) as char, v.width, flags.left, before, text);
    } else if c == 's' {
      str := PutString(buf, size, str, StringArg(input, v.next), v.width, v.precision, flags.left, before, text);
    } else if c == 'p' {
      var width := v.width;
      if width == -1 {
        width := 8;
        flags := flags.(zeropad := true);
      }
      str := PrintNumber(buf, size, str, Signed(w), 16, width, v.precision, flags, before, text);
    } else if c == '%' {
      used := 0;
      str := Put(buf, size, str, '%', before, text);
    } else if IsNumber(c) {
      str := ConvertNumber(buf, size, str, c, w, v, before, text);
    } else {
      used := 0;
      str := Put(buf, size, str, '%', before, text);
      if c != '\0' {
        str := Put(buf, size, str, c, before, text + "%");
        assert text + "%" + [c] == text + ['%', c];
      }
    }
  }

  /** One conversion, from its '%' on. */
  method StepConversion(buf: array<char>, size: nat, str0: nat, input: Input, i0: nat, a0: nat, ghost before: seq<char>, ghost text: string)
    returns (str: nat, i: nat, a: nat, ghost v: Conversion)
    requires Written(before, buf[..], size, str0, text) && i0 < |input.fmt|
    modifies buf
    ensures v == ReadConversion(input, i0, a0) && i == After(input.fmt, v) && a == v.next + Converted(input, v).1
    ensures Written(before, buf[..], size, str, text + Converted(input, v).0)
  {
    var w := Directive(input, i0, a0);
    var used;
    str, used := Convert(buf, size, str0, input, w, before, text);
    i, a, v := After(input.fmt, w), w.next + used, w;
  }

  /** One character of the format, or one conversion. */
  method Step(buf: array<char>, size: nat, str0: nat, input: Input, i0: nat, a0: nat, ghost before: seq<char>, ghost text: string)
    returns (str: nat, i: nat, a: nat, ghost piece: string)
    requires Written(before, buf[..], size, str0, text) && Peek(input.fmt, i0) != '\0'
    modifies buf
    ensures Written(before, buf[..], size, str, text + piece) && i0 < i <= |input.fmt|
    ensures Render(input, i0, a0) == piece + Render(input, i, a)
  {
    var fmt := input.fmt;
    if fmt[i0] != '%' {
      str := Put(buf, size, str0, fmt[i0], before, text);
      i, a, piece := i0 + 1, a0, [fmt[i0]];
    } else {
      ghost var v;
      RenderConversion(input, i0, a0);
      str, i, a, v := StepConversion(buf, size, str0, input, i0, a0, before, text);
      piece := Converted(input, v).0;
    }
  }

  lemma {:induction false} RenderConversion(input: Input, i: nat, a: nat)
    requires i < |input.fmt| && input.fmt[i] == '%'
    ensures var v := ReadConversion(input, i, a);
      Render(input, i, a) == Converted(input, v).0 + Render(input, After(input.fmt, v), v.next + Converted(input, v).1)
  {
  }

  lemma Regroup(x: string, y: string, z: string)
    ensures x + y + z == x + (y + z)
  {
  }

  /** The result in memory: the text as far as it leaves room for a NUL, then the NUL; nothing
      else is touched. */
  ghost predicate Terminated(before: seq<char>, after: seq<char>, size: nat, text: string) {
    && |after| == |before| && size <= |before|
    && forall k :: 0 <= k < |before| ==> after[k] == Kept(before[k], k, size, text)
  }

  /** What is at place `k`, which held `c`. */
  function Kept(c: char, k: nat, size: nat, text: string): char {
    if size == 0 || k > |text| || k >= size then c
    else if k == |text| || k == size - 1 then '\0'
    else text[k]
  }

  /** rt_vsnprintf returns the length of the whole text whatever the size of the buffer. */
  method Vsnprintf(buf: array<char>, size: nat, input: Input) returns (n: nat)
    requires size <= buf.Length
    modifies buf
    ensures n == |Render(input, 0, 0)|
    ensures Terminated(old(buf[..]), buf[..], size, Render(input, 0, 0))
  {
    var i: nat, a: nat, str: nat := 0, 0, 0;
    ghost var before, text, all := buf[..], "", Render(input, 0, 0);
    assert "" + all == all;
    while Peek(input.fmt, i) != '\0'
      invariant i <= |input.fmt| && Written(before, buf[..], size, str, text)
      invariant text + Render(input, i, a) == all
      decreases |input.fmt| - i
    {
      ghost var piece;
      str, i, a, piece := Step(buf, size, str, input, i, a, before, text);
      Regroup(text, piece, Render(input, i, a));
      text := text + piece;
    }
    assert text + "" == text;
    if size > 0 {
      if str < size {
        buf[str] := '\0';
      } else {
        buf[size - 1] := '\0';
      }
    }
    n := str;
  }

  /** A buffer of any size holds the same characters as a larger one, up to its own NUL. */
  lemma SizeOnlyCuts(before: seq<char>, after: seq<char>, size: nat, before': seq<char>, after': seq<char>, size': nat,
                     text: string, k: nat)
    requires Terminated(before, after, size, text) && Terminated(before', after', size', text) && size <= size'
    requires k < |text| && k + 1 < size
    ensures after[k] == after'[k] == text[k]
  {
  }

  lemma {:induction false} CStringIs(s: string, n: nat)
    requires n < |s| && s[n] == '\0' && forall k :: 0 <= k < n ==> s[k] != '\0'
    ensures CString(s) == s[..n]
  {
    if n > 0 { CStringIs(s[1..], n - 1); }
  }

  /** Read back as a C string, the buffer holds the text cut to size - 1 characters. */
  lemma ReadsBack(before: seq<char>, after: seq<char>, size: nat, text: string)
    requires Terminated(before, after, size, text) && size > 0 && '\0' !in text
    ensures CString(after[..size]) == text[..if |text| < size then |text| else size - 1]
  {
    var n := if |text| < size then |text| else size - 1;
    assert after[..size][..n] == text[..n];
    forall k | 0 <= k < n ensures after[..size][k] != '\0' { assert text[k] in text; }
    CStringIs(after[..size], n);
  }
}
