/** The text formatting the hex editor relies on: Python's `format(n, '0Nx')`
    (used for the offset label with width 8 and for each byte with width 2)
    and `str.ljust`, together with the value of a hexadecimal numeral, which
    is what makes a formatted number readable back. */
module HexText {

  /** One element of a Python `bytearray`. */
  type byte = b: int | 0 <= b < 256

  predicate IsHexDigit(c: char) {
    '0' <= c <= '9' || 'a' <= c <= 'f' || 'A' <= c <= 'F'
  }

  predicate IsLowerHexDigit(c: char) {
    '0' <= c <= '9' || 'a' <= c <= 'f'
  }

  predicate AllHexDigits(s: string) {
    forall k :: 0 <= k < |s| ==> IsHexDigit(s[k])
  }

  predicate AllLowerHexDigits(s: string) {
    forall k :: 0 <= k < |s| ==> IsLowerHexDigit(s[k])
  }

  /** Every character is in the 7-bit ASCII range. */
  predicate IsAscii(s: string) {
    forall k :: 0 <= k < |s| ==> s[k] as int < 128
  }

  /** The value of a hexadecimal digit of either case. */
  function DigitValue(c: char): (v: nat)
    requires IsHexDigit(c)
    ensures v < 16
    ensures IsLowerHexDigit(c) ==> c == Digit(v)
  {
    if '0' <= c <= '9' then c as int - '0' as int
    else if 'a' <= c <= 'f' then c as int - 'a' as int + 10
    else c as int - 'A' as int + 10
  }

  /** The lower-case digit that `format(d, 'x')` writes for a value below 16. */
  function Digit(d: nat): (c: char)
    requires d < 16
    ensures IsLowerHexDigit(c) && IsHexDigit(c)
  {
    if d < 10 then ('0' as int + d) as char else ('a' as int + d - 10) as char
  }

  lemma DigitRoundTrip(d: nat)
    requires d < 16
    ensures DigitValue(Digit(d)) == d
  {
  }

  /** The shortest lower-case hexadecimal numeral of `n`: `format(n, 'x')`. */
  function Numeral(n: nat): (s: string)
    ensures |s| >= 1 && AllLowerHexDigits(s)
    decreases n
  {
    if n < 16 then [Digit(n)] else Numeral(n / 16) + [Digit(n % 16)]
  }

  /** The number a string of hexadecimal digits denotes, most significant digit first. */
  function Value(s: string): nat
    requires AllHexDigits(s)
  {
    if s == [] then 0 else Value(s[..|s| - 1]) * 16 + DigitValue(s[|s| - 1])
  }

  function Pow16(k: nat): (p: nat)
    ensures p >= 1
  {
    if k == 0 then 1 else 16 * Pow16(k - 1)
  }

  function Repeat(c: char, n: nat): (s: string)
    ensures |s| == n && forall k :: 0 <= k < n ==> s[k] == c
  {
    if n == 0 then [] else [c] + Repeat(c, n - 1)
  }

  /** Python's `format(n, '0{width}x')`: the numeral of `n`, left-padded with
      zeros up to `width` characters and never truncated. */
  function FormatHex(n: nat, width: nat): string {
    var digits := Numeral(n);
    if |digits| >= width then digits else Repeat('0', width - |digits|) + digits
  }

  /** Python's `s.ljust(width)`: pads with spaces on the right up to `width`, never truncates. */
  function LJust(s: string, width: nat): (r: string)
    ensures |r| == if |s| >= width then |s| else width
    ensures r[..|s|] == s
    ensures forall k :: |s| <= k < |r| ==> r[k] == ' '
  {
    if |s| >= width then s else s + Repeat(' ', width - |s|)
  }

  lemma {:induction false} NumeralValue(n: nat)
    ensures Value(Numeral(n)) == n
    decreases n
  {
    if n < 16 {
      DigitRoundTrip(n);
    } else {
      var s := Numeral(n);
      NumeralValue(n / 16);
      assert s[..|s| - 1] == Numeral(n / 16);
      DigitRoundTrip(n % 16);
    }
  }

  lemma {:induction false} ValueBound(s: string)
    requires AllHexDigits(s)
    ensures Value(s) < Pow16(|s|)
  {
    if s != [] {
      ValueBound(s[..|s| - 1]);
    }
  }

  lemma {:induction false} NumeralLength(n: nat, width: nat)
    requires 1 <= width && n < Pow16(width)
    ensures |Numeral(n)| <= width
    decreases width
  {
    if n >= 16 {
      assert width >= 2;
      NumeralLength(n / 16, width - 1);
    }
  }

  /** The numeral of a positive number has no leading zero. */
  lemma {:induction false} NumeralLeadingDigit(n: nat)
    requires n > 0
    ensures Numeral(n)[0] != '0'
    decreases n
  {
    if n >= 16 {
      NumeralLeadingDigit(n / 16);
      assert Numeral(n)[0] == Numeral(n / 16)[0];
    }
  }

  lemma {:induction false} ZerosValue(z: nat)
    ensures AllHexDigits(Repeat('0', z)) && Value(Repeat('0', z)) == 0
  {
    if z > 0 {
      assert Repeat('0', z)[..z - 1] == Repeat('0', z - 1);
      ZerosValue(z - 1);
    }
  }

  /** Leading zeros do not change the value of a numeral. */
  lemma {:induction false} LeadingZeros(z: nat, s: string)
    requires AllHexDigits(s)
    ensures AllHexDigits(Repeat('0', z) + s)
    ensures Value(Repeat('0', z) + s) == Value(s)
    decreases |s|
  {
    var t := Repeat('0', z) + s;
    if s == [] {
      assert t == Repeat('0', z);
      ZerosValue(z);
    } else {
      var u := s[..|s| - 1];
      assert AllHexDigits(u) by {
        forall k | 0 <= k < |u| ensures IsHexDigit(u[k]) {
          assert u[k] == s[k];
        }
      }
      assert t[..|t| - 1] == Repeat('0', z) + u;
      LeadingZeros(z, u);
      assert t[|t| - 1] == s[|s| - 1];
    }
  }

  /** `format(n, '0{width}x')` reads back as `n`, has at least `width`
      lower-case digits, and has exactly `width` of them iff `n` fits. */
  lemma FormatHexRoundTrip(n: nat, width: nat)
    ensures |FormatHex(n, width)| >= width && AllLowerHexDigits(FormatHex(n, width))
    ensures AllHexDigits(FormatHex(n, width)) && Value(FormatHex(n, width)) == n
    ensures 1 <= width ==> (|FormatHex(n, width)| == width <==> n < Pow16(width))
    ensures |FormatHex(n, width)| > width ==> n == 0 || FormatHex(n, width)[0] != '0'
  {
    if n > 0 {
      NumeralLeadingDigit(n);
    }
    var digits := Numeral(n);
    NumeralValue(n);
    ValueBound(digits);
    if |digits| < width {
      LeadingZeros(width - |digits|, digits);
    }
    if 1 <= width && n < Pow16(width) {
      NumeralLength(n, width);
    }
    if 1 <= width && |FormatHex(n, width)| == width {
      ValueBound(FormatHex(n, width));
    }
  }
}
