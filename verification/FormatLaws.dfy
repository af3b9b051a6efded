/** What the texts of FormatSpec mean to a reader. */
module FormatLaws {
  import opened FormatSpec

  function DigitValue(c: char): nat {
    if '0' <= c <= '9' then c as int - '0' as int
    else if 'a' <= c <= 'f' then c as int - 'a' as int + 10
    else if 'A' <= c <= 'F' then c as int - 'A' as int + 10
    else 0
  }

  /** A numeral read back. */
  function ValueOf(text: string, radix: nat): nat {
    if text == "" then 0 else ValueOf(text[..|text| - 1], radix) * radix + DigitValue(text[|text| - 1])
  }

  lemma DigitReadBack(d: nat, large: bool)
    requires d < 16
    ensures DigitValue(Digit(d, large)) == d
  {
    var i: nat :| i == d;
    assert SMALL[d] == "0123456789abcdef"[i] && LARGE[d] == "0123456789ABCDEF"[i];
  }

  lemma {:induction false} ValueAppend(text: string, c: char, radix: nat, v: nat)
    requires ValueOf(text, radix) == v
    ensures ValueOf(text + [c], radix) == v * radix + DigitValue(c)
  {
    assert (text + [c])[..|text|] == text;
  }

  /** Numerals round-trip. */
  lemma {:induction false} DigitsReadBack(n: nat, radix: nat, large: bool)
    requires IsRadix(radix)
    ensures Digits(n, radix, large) != "" && ValueOf(Digits(n, radix, large), radix) == n
  {
    if n < radix {
      DigitReadBack(n, large);
      assert [Digit(n, large)][..0] == "";
    } else {
      var (q, r) := Split(n, radix);
      DigitsReadBack(q, radix, large);
      DigitReadBack(r, large);
      ValueAppend(Digits(q, radix, large), Digit(r, large), radix, q);
    }
  }

  /** The octal conversion is right exactly below 8: above, `divide` counts in sixteens. */
  lemma OctalIff(n: nat, large: bool)
    ensures Digits(n, Radix(8), large) == Digits(n, 8, large) <==> n < 8
  {
    if n >= 8 {
      DigitsReadBack(n, 16, large);
      OctalTooBig(n, large);
    }
  }

  lemma {:induction false} OctalTooBig(n: nat, large: bool)
    ensures ValueOf(Digits(n, 8, large), 16) >= n
    ensures n >= 8 ==> ValueOf(Digits(n, 8, large), 16) > n
  {
    var text := Digits(n, 8, large);
    if n < 8 {
      DigitReadBack(n, large);
      assert text[..0] == "";
    } else {
      OctalTooBig(n / 8, large);
      DigitReadBack(n % 8, large);
      assert text[..|text| - 1] == Digits(n / 8, 8, large);
    }
  }

  function Pow(b: nat, k: nat): nat { if k == 0 then 1 else b * Pow(b, k - 1) }

  lemma {:induction false} DigitsShort(n: nat, radix: nat, large: bool, k: nat)
    requires IsRadix(radix) && k > 0 && n < Pow(radix, k)
    ensures 0 < |Digits(n, radix, large)| <= k
  {
    if n >= radix {
      var (q, r) := Split(n, radix);
      var p := Pow(radix, k - 1);
      assert q < p;
      DigitsShort(q, radix, large, k - 1);
    }
  }

  /** A word never has more digits than print_number's 16-byte buffer holds. */
  lemma WordFits(n: nat, base: nat, large: bool)
    requires n < WORD
    ensures 0 < |Digits(n, Radix(base), large)| <= 10
  {
    assert Pow(16, 8) == WORD by {
      assert Pow(16, 1) == 16 && Pow(16, 2) == 256 && Pow(16, 4) == 0x1_0000;
    }
    assert Pow(10, 10) == 10_000_000_000 by {
      assert Pow(10, 2) == 100 && Pow(10, 4) == 10_000 && Pow(10, 8) == 100_000_000;
    }
    if base == 10 { DigitsShort(n, 10, large, 10); } else { DigitsShort(n, 16, large, 8); }
  }

  /** A number fills its field, or exceeds it when it needs more room; a precision of zero
      leaves out the digits. */
  lemma FieldFilled(n: int, base: nat, width: int, precision: int, flags: Flags)
    requires -(WORD / 2) <= n < WORD / 2
    ensures
      var digits := |Digits(Magnitude(n, flags), Radix(base), flags.large)|;
      var need := |SignOf(n, flags)| + Room(digits, precision);
      |NumberText(n, base, width, precision, flags)| ==
        (if width > need then width else need) - if precision == 0 then digits else 0
  {
  }

  /** A string is shown whole exactly when neither the width nor a positive precision is less
      than its length. */
  lemma ShownWholeIff(s: string, width: int, precision: int)
    ensures Shown(s, width, precision) == s <==> (width < 0 || |s| <= width) && (precision <= 0 || |s| <= precision)
  {
    var n := if 0 <= width < |s| then width else |s|;
    assert |Shown(s, width, precision)| == if 0 < precision < n then precision else n;
  }
}
