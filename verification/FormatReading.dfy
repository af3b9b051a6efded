/** Formats as they are written: what a directive spelled out in a format is read as, and what
    the whole format gives. */
module FormatReading {
  import opened FormatSpec
  import opened FormatLaws
  import opened FormatMeaning

  /** A width or precision: left out, in digits, or `*`. */
  datatype Count = Omitted | Given(digits: string) | FromArgument

  /** A directive: flag characters, width, a precision if `dot`, qualifier and letter. */
  datatype Directive = Directive(marks: string, width: Count, dot: bool, precision: Count, qualifier: string, letter: char)

  function CountText(n: Count): string {
    match n
    case Omitted => ""
    case Given(digits) => digits
    case FromArgument => "*"
  }

  function PrecisionText(d: Directive): string { if d.dot then "." + CountText(d.precision) else "" }

  function Spelling(d: Directive): string {
    "%" + (d.marks + (CountText(d.width) + (PrecisionText(d) + (d.qualifier + [d.letter]))))
  }

  predicate IsLetter(c: char) { IsNumber(c) || c == 'c' || c == 's' || c == 'p' || c == '%' }

  ghost predicate AllDigits(digits: string) {
    digits != "" && forall i :: 0 <= i < |digits| ==> IsDigit(digits[i])
  }

  /** A width does not begin with the flag '0'. */
  ghost predicate WellFormed(d: Directive) {
    && (forall i :: 0 <= i < |d.marks| ==> IsFlag(d.marks[i]))
    && (d.width.Given? ==> AllDigits(d.width.digits) && d.width.digits[0] != '0')
    && (d.precision.Given? ==> AllDigits(d.precision.digits))
    && (d.qualifier == "" || d.qualifier == "h" || d.qualifier == "l")
    && IsLetter(d.letter)
  }

  // ------------------------------------------------------------------ positions

  /** The text `s` stands at `i`. */
  ghost predicate At(fmt: string, i: nat, s: string) {
    i + |s| <= |fmt| && forall k :: 0 <= k < |s| ==> fmt[i + k] == s[k]
  }

  lemma AtSplit(fmt: string, i: nat, s: string, t: string)
    requires At(fmt, i, s + t)
    ensures At(fmt, i, s) && At(fmt, i + |s|, t)
  {
    forall k | 0 <= k < |s| ensures fmt[i + k] == s[k] { assert (s + t)[k] == s[k]; }
    forall k | 0 <= k < |t| ensures fmt[i + |s| + k] == t[k] { assert (s + t)[|s| + k] == t[k]; }
  }

  lemma AtPeek(fmt: string, i: nat, s: string)
    requires At(fmt, i, s) && s != ""
    ensures Peek(fmt, i) == s[0] && i < |fmt|
  {
    assert fmt[i + 0] == s[0];
  }

  // -------------------------------------------------------------------- parts

  /** The flag that the character `x` stands for. */
  predicate Mark(flags: Flags, x: char) {
    if x == '-' then flags.left else if x == '+' then flags.plus else if x == ' ' then flags.space
    else if x == '#' then flags.special else x == '0' && flags.zeropad
  }

  /** `r` has the flags of `flags` and those whose characters are in `marks`. */
  ghost predicate Marked(r: Flags, flags: Flags, marks: string) {
    && (forall x :: IsFlag(x) ==> (Mark(r, x) <==> Mark(flags, x) || x in marks))
    && r.sign == flags.sign && r.large == flags.large
  }

  lemma MarkIs(flags: Flags, c: char, x: char)
    requires IsFlag(c) && IsFlag(x)
    ensures Mark(WithFlag(flags, c), x) <==> Mark(flags, x) || x == c
  {
  }

  lemma MarkedCons(r: Flags, flags: Flags, c: char, rest: string)
    requires IsFlag(c) && Marked(r, WithFlag(flags, c), rest)
    ensures Marked(r, flags, [c] + rest)
  {
    forall x | IsFlag(x) ensures Mark(r, x) <==> Mark(flags, x) || x in [c] + rest {
      MarkIs(flags, c, x);
    }
  }

  lemma {:induction false} ReadsFlags(fmt: string, i: nat, marks: string, flags: Flags)
    requires At(fmt, i, marks) && forall k :: 0 <= k < |marks| ==> IsFlag(marks[k])
    requires !IsFlag(Peek(fmt, i + |marks|))
    ensures var r := ReadFlags(fmt, i, flags); r.1 == i + |marks| && Marked(r.0, flags, marks)
    decreases |marks|
  {
    if marks != "" {
      var c, rest := marks[0], marks[1..];
      AtPeek(fmt, i, marks);
      assert marks == [c] + rest;
      AtSplit(fmt, i, [c], rest);
      ReadsFlags(fmt, i + 1, rest, WithFlag(flags, c));
      MarkedCons(ReadFlags(fmt, i, flags).0, flags, c, rest);
    }
  }

  lemma {:induction false} ReadsNumber(fmt: string, i: nat, digits: string, done: string, acc: nat)
    requires At(fmt, i, digits) && forall k :: 0 <= k < |digits| ==> IsDigit(digits[k])
    requires !IsDigit(Peek(fmt, i + |digits|)) && acc == ValueOf(done, 10)
    ensures ReadNumber(fmt, i, acc) == (ValueOf(done + digits, 10), i + |digits|)
    decreases |digits|
  {
    if digits != "" {
      var c := digits[0];
      AtPeek(fmt, i, digits);
      assert digits == [c] + digits[1..];
      AtSplit(fmt, i, [c], digits[1..]);
      ValueAppend(done, c, 10, acc);
      assert done + digits == done + [c] + digits[1..];
      ReadsNumber(fmt, i + 1, digits[1..], done + [c], acc * 10 + DigitOf(c));
    } else {
      assert done + digits == done;
    }
  }

  /** What a width in an argument is: negative ones count as their absolute value. */
  function ArgWidth(w: nat): int { if w < WORD / 2 then w else WORD - w }

  function WidthOf(n: Count, w: nat): int {
    match n
    case Omitted => -1
    case Given(digits) => ValueOf(digits, 10)
    case FromArgument => ArgWidth(w)
  }

  /** A negative precision in an argument counts as zero. */
  function PrecisionOf(d: Directive, w: nat): int {
    if !d.dot then -1
    else match d.precision
      case Omitted => 0
      case Given(digits) => ValueOf(digits, 10)
      case FromArgument => if w < WORD / 2 then w else 0
  }

  function Stars(n: Count): nat { if n.FromArgument? then 1 else 0 }

  /** Neither a digit nor a star, so that a count to its left ends here. */
  predicate EndsCount(c: char) { !IsDigit(c) && c != '*' }

  lemma ReadsWidth(input: Input, i: nat, a: nat, flags: Flags, n: Count)
    requires At(input.fmt, i, CountText(n)) && EndsCount(Peek(input.fmt, i + |CountText(n)|))
    requires n.Given? ==> AllDigits(n.digits)
    ensures var w := Word(input, a);
      ReadWidth(input, i, a, flags) ==
      Conversion(if n.FromArgument? && w >= WORD / 2 then flags.(left := true) else flags,
                 WidthOf(n, w), -1, '\0', i + |CountText(n)|, a + Stars(n))
  {
    if n.Given? {
      AtPeek(input.fmt, i, n.digits);
      ReadsNumber(input.fmt, i, n.digits, "", 0);
      assert "" + n.digits == n.digits;
    } else if n.FromArgument? {
      AtPeek(input.fmt, i, "*");
    }
  }

  lemma ReadsDigits(input: Input, v: Conversion, digits: string)
    requires Peek(input.fmt, v.at) == '.' && At(input.fmt, v.at + 1, digits) && AllDigits(digits)
    requires !IsDigit(Peek(input.fmt, v.at + 1 + |digits|))
    ensures ReadPrecision(input, v) == v.(precision := ValueOf(digits, 10), at := v.at + 1 + |digits|)
  {
    AtPeek(input.fmt, v.at + 1, digits);
    ReadsNumber(input.fmt, v.at + 1, digits, "", 0);
    assert "" + digits == digits;
  }

  lemma ReadsDot(input: Input, v: Conversion)
    requires Peek(input.fmt, v.at) == '.' && !IsDigit(Peek(input.fmt, v.at + 1))
    ensures var w, star := Word(input, v.next), Peek(input.fmt, v.at + 1) == '*';
      ReadPrecision(input, v) ==
      if star then v.(precision := if w < WORD / 2 then w else 0, at := v.at + 2, next := v.next + 1)
      else v.(precision := 0, at := v.at + 1)
  {
  }

  lemma ReadsPrecision(input: Input, v: Conversion, d: Directive)
    requires At(input.fmt, v.at, PrecisionText(d)) && v.precision == -1
    requires var c := Peek(input.fmt, v.at + |PrecisionText(d)|); EndsCount(c) && c != '.'
    requires d.precision.Given? ==> AllDigits(d.precision.digits)
    ensures ReadPrecision(input, v) ==
      v.(precision := PrecisionOf(d, Word(input, v.next)), at := v.at + |PrecisionText(d)|,
         next := v.next + if d.dot then Stars(d.precision) else 0)
  {
    if d.dot {
      var text := CountText(d.precision);
      AtPeek(input.fmt, v.at, PrecisionText(d));
      AtSplit(input.fmt, v.at, ".", text);
      if d.precision.Given? {
        ReadsDigits(input, v, text);
      } else {
        if d.precision.FromArgument? { AtPeek(input.fmt, v.at + 1, text); }
        ReadsDot(input, v);
      }
    }
  }

  lemma ReadsQualifier(fmt: string, v: Conversion, qualifier: string, letter: char)
    requires At(fmt, v.at, qualifier + [letter]) && v.qualifier == '\0' && IsLetter(letter)
    requires qualifier == "" || qualifier == "h" || qualifier == "l"
    ensures ReadQualifier(fmt, v) ==
      v.(qualifier := if qualifier == "" then '\0' else qualifier[0], at := v.at + |qualifier|)
    ensures Peek(fmt, v.at + |qualifier|) == letter
  {
    AtPeek(fmt, v.at, qualifier + [letter]);
    AtSplit(fmt, v.at, qualifier, [letter]);
    AtPeek(fmt, v.at + |qualifier|, [letter]);
  }

  // ---------------------------------------------------------------- directives

  /** The conversion `v` is what the directive says, with the arguments from `a` on. */
  ghost predicate Says(v: Conversion, d: Directive, input: Input, i: nat, a: nat) {
    var p := a + Stars(d.width);
    && v.flags.left == ('-' in d.marks || (d.width.FromArgument? && Word(input, a) >= WORD / 2))
    && v.flags.plus == ('+' in d.marks) && v.flags.space == (' ' in d.marks)
    && v.flags.special == ('#' in d.marks) && v.flags.zeropad == ('0' in d.marks)
    && AsRead(v)
    && v.width == WidthOf(d.width, Word(input, a))
    && v.precision == PrecisionOf(d, Word(input, p))
    && v.qualifier == (if d.qualifier == "" then '\0' else d.qualifier[0])
    && v.at == i + |Spelling(d)| - 1 && Peek(input.fmt, v.at) == d.letter
    && v.next == p + if d.dot then Stars(d.precision) else 0
  }

  /** Where the parts of a directive begin, and what each is followed by. */
  lemma Parts(fmt: string, i: nat, d: Directive)
    requires WellFormed(d) && At(fmt, i, Spelling(d))
    ensures Peek(fmt, i) == '%' && i < |fmt|
    ensures var w := i + 1 + |d.marks|; var p := w + |CountText(d.width)|; var q := p + |PrecisionText(d)|;
      && At(fmt, i + 1, d.marks) && At(fmt, w, CountText(d.width)) && At(fmt, p, PrecisionText(d))
      && At(fmt, q, d.qualifier + [d.letter])
      && !IsFlag(Peek(fmt, w)) && EndsCount(Peek(fmt, p)) && EndsCount(Peek(fmt, q)) && Peek(fmt, q) != '.'
      && i + |Spelling(d)| == q + |d.qualifier| + 1
  {
    var w := i + 1 + |d.marks|;
    var p := w + |CountText(d.width)|;
    var q := p + |PrecisionText(d)|;
    var tail := d.qualifier + [d.letter];
    AtSplit(fmt, i, "%", d.marks + (CountText(d.width) + (PrecisionText(d) + tail)));
    AtPeek(fmt, i, "%");
    AtSplit(fmt, i + 1, d.marks, CountText(d.width) + (PrecisionText(d) + tail));
    AtSplit(fmt, w, CountText(d.width), PrecisionText(d) + tail);
    AtSplit(fmt, p, PrecisionText(d), tail);
    AtPeek(fmt, q, tail);
    if d.dot { AtPeek(fmt, p, PrecisionText(d)); }
    if !d.width.Omitted? { AtPeek(fmt, w, CountText(d.width)); }
  }

  /** A directive is read as it is written. */
  lemma ReadsAsWritten(input: Input, i: nat, a: nat, d: Directive)
    requires WellFormed(d) && At(input.fmt, i, Spelling(d))
    ensures i < |input.fmt| && input.fmt[i] == '%' && Says(ReadConversion(input, i, a), d, input, i, a)
  {
    var fmt := input.fmt;
    Parts(fmt, i, d);
    var w := i + 1 + |d.marks|;
    ReadsFlags(fmt, i + 1, d.marks, NO_FLAGS);
    var flags := ReadFlags(fmt, i + 1, NO_FLAGS).0;
    ReadsRest(input, i, a, d, flags, w);
    SpeltSays(d, flags, input, i, a);
  }

  /** The conversion that the directive spells. */
  ghost function Spelt(d: Directive, flags: Flags, input: Input, i: nat, a: nat): Conversion {
    var w, p := Word(input, a), a + Stars(d.width);
    Conversion(if d.width.FromArgument? && w >= WORD / 2 then flags.(left := true) else flags,
               WidthOf(d.width, w), PrecisionOf(d, Word(input, p)), if d.qualifier == "" then '\0' else d.qualifier[0],
               i + |Spelling(d)| - 1, p + if d.dot then Stars(d.precision) else 0)
  }

  lemma ReadsRest(input: Input, i: nat, a: nat, d: Directive, flags: Flags, w: nat)
    requires WellFormed(d) && w == i + 1 + |d.marks|
    requires var p := w + |CountText(d.width)|; var q := p + |PrecisionText(d)|;
      && At(input.fmt, w, CountText(d.width)) && At(input.fmt, p, PrecisionText(d)) && At(input.fmt, q, d.qualifier + [d.letter])
      && EndsCount(Peek(input.fmt, p)) && EndsCount(Peek(input.fmt, q)) && Peek(input.fmt, q) != '.'
      && i + |Spelling(d)| == q + |d.qualifier| + 1
    ensures var v := ReadQualifier(input.fmt, ReadPrecision(input, ReadWidth(input, w, a, flags)));
      v == Spelt(d, flags, input, i, a) && Peek(input.fmt, v.at) == d.letter
  {
    ReadsWidth(input, w, a, flags, d.width);
    var v := ReadWidth(input, w, a, flags);
    ReadsPrecision(input, v, d);
    ReadsQualifier(input.fmt, ReadPrecision(input, v), d.qualifier, d.letter);
  }

  lemma SpeltSays(d: Directive, flags: Flags, input: Input, i: nat, a: nat)
    requires Marked(flags, NO_FLAGS, d.marks) && Peek(input.fmt, i + |Spelling(d)| - 1) == d.letter
    ensures Says(Spelt(d, flags, input, i, a), d, input, i, a)
  {
    assert Mark(flags, '-') == ('-' in d.marks) && Mark(flags, '+') == ('+' in d.marks) && Mark(flags, ' ') == (' ' in d.marks)
      && Mark(flags, '#') == ('#' in d.marks) && Mark(flags, '0') == ('0' in d.marks);
  }

  // ------------------------------------------------------------------- formats

  lemma RenderConversion(input: Input, i: nat, a: nat)
    requires i < |input.fmt| && input.fmt[i] == '%'
    ensures var v := ReadConversion(input, i, a); var r := Converted(input, v);
      Render(input, i, a) == r.0 + Render(input, After(input.fmt, v), v.next + r.1)
  {
  }

  lemma ArgumentsUsed(input: Input, v: Conversion)
    requires IsLetter(Peek(input.fmt, v.at))
    ensures Converted(input, v).1 == if Peek(input.fmt, v.at) == '%' then 0 else 1
  {
  }

  lemma GoesOn(input: Input, i: nat, a: nat, d: Directive)
    requires WellFormed(d) && At(input.fmt, i, Spelling(d))
    ensures i < |input.fmt| && input.fmt[i] == '%'
    ensures var v := ReadConversion(input, i, a);
      After(input.fmt, v) == i + |Spelling(d)| && Converted(input, v).1 == if d.letter == '%' then 0 else 1
  {
    ReadsAsWritten(input, i, a, d);
    ArgumentsUsed(input, ReadConversion(input, i, a));
  }

  /** Behind a directive the format goes on with the arguments it has not used. */
  lemma RendersDirective(input: Input, i: nat, a: nat, d: Directive)
    requires WellFormed(d) && At(input.fmt, i, Spelling(d))
    ensures i < |input.fmt|
    ensures var v := ReadConversion(input, i, a); var used := if d.letter == '%' then 0 else 1;
      Render(input, i, a) == Converted(input, v).0 + Render(input, i + |Spelling(d)|, v.next + used)
  {
    GoesOn(input, i, a, d);
    RenderConversion(input, i, a);
  }

  lemma RenderChar(input: Input, i: nat, a: nat)
    requires i < |input.fmt| && input.fmt[i] != '%' && input.fmt[i] != '\0'
    ensures Render(input, i, a) == [input.fmt[i]] + Render(input, i + 1, a)
  {
  }

  lemma Regroup(all: string, text: string, rest: string, tail: string)
    requires text != "" && all == [text[0]] + rest && rest == text[1..] + tail
    ensures all == text + tail
  {
  }

  lemma TextHead(fmt: string, i: nat, text: string)
    requires At(fmt, i, text) && '%' !in text && '\0' !in text && text != ""
    ensures i < |fmt| && fmt[i] == text[0] && text[0] != '%' && text[0] != '\0'
    ensures At(fmt, i + 1, text[1..]) && '%' !in text[1..] && '\0' !in text[1..]
  {
    AtPeek(fmt, i, text);
    assert text[0] in text && text == [text[0]] + text[1..];
    AtSplit(fmt, i, [text[0]], text[1..]);
  }

  /** Text without a '%' is copied. */
  lemma {:induction false} RendersText(input: Input, i: nat, a: nat, text: string)
    requires At(input.fmt, i, text) && '%' !in text && '\0' !in text
    ensures Render(input, i, a) == text + Render(input, i + |text|, a)
    decreases |text|
  {
    var tail := Render(input, i + |text|, a);
    if text != "" {
      TextHead(input.fmt, i, text);
      RendersText(input, i + 1, a, text[1..]);
      RenderChar(input, i, a);
      Regroup(Render(input, i, a), text, Render(input, i + 1, a), tail);
    } else {
      assert text + tail == tail;
    }
  }

  /** A number as it is printed without flags, width and precision. */
  ghost predicate Printed(text: string, numeral: string, n: int, c: char) {
    Numeral(numeral, CountsIn(c), c == 'X', Abs(n)) && text == (if n < 0 then "-" else "") + numeral
  }

  lemma LaidPlain(text: string, sign: string, numeral: string, flags: Flags)
    requires Laid(text, sign, numeral, -1, -1, flags) && !flags.left && !flags.zeropad
    ensures text == sign + numeral
  {
  }

  lemma PlainPrinted(text: string, n: int, c: char, flags: Flags)
    requires Shows(text, n, c, -1, -1, flags) && !flags.left && !flags.zeropad && !flags.plus && !flags.space
    ensures exists numeral :: Printed(text, numeral, n, c)
  {
    var sign, numeral :| SignIs(sign, n, c, flags) && Numeral(numeral, CountsIn(c), c == 'X', Abs(n))
      && Laid(text, sign, numeral, -1, -1, flags);
    LaidPlain(text, sign, numeral, flags);
    assert Printed(text, numeral, n, c);
  }

  /** A format that is one letter behind its '%' prints the number meant: a minus sign exactly for
      a negative one, then its numeral in the radix and case of the letter. */
  lemma PrintsNumber(input: Input, c: char, n: int)
    requires IsNumber(c) && input.fmt == ['%', c] && IsMeant(n, Word(input, 0), '\0', c)
    ensures exists numeral :: Printed(Render(input, 0, 0), numeral, n, c)
  {
    var d := Directive("", Omitted, false, Omitted, "", c);
    assert Spelling(d) == ['%', c];
    ReadsAsWritten(input, 0, 0, d);
    RendersDirective(input, 0, 0, d);
    var v := ReadConversion(input, 0, 0);
    assert Render(input, 2, v.next + 1) == "";
    NumberMeans(input, v, n);
    assert Converted(input, v).0 + "" == Converted(input, v).0;
    PlainPrinted(Converted(input, v).0, n, c, v.flags);
  }
}
