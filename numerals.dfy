/** Decimal digit strings: what they denote, how Python writes a
    non-negative integer (`str(n)`), and the zero-padded numeric fields of
    `strftime` (`%Y`, `%m`, `%d`). */
module Numerals {
  import opened PyText

  predicate IsDigit(c: char) {
    '0' <= c <= '9'
  }

  predicate IsDigits(s: string) {
    forall i :: 0 <= i < |s| ==> IsDigit(s[i])
  }

  lemma DigitsHaveNoSpace(s: string)
    requires IsDigits(s)
    ensures ' ' !in s
  {
    forall i | 0 <= i < |s| ensures s[i] != ' ' {
      assert IsDigit(s[i]);
    }
  }

  function DigitValue(c: char): (d: nat)
    requires IsDigit(c)
    ensures d < 10
  {
    c as int - '0' as int
  }

  function DigitChar(d: nat): (c: char)
    requires d < 10
    ensures IsDigit(c) && DigitValue(c) == d
  {
    ('0' as int + d) as char
  }

  /** The number a string of decimal digits denotes; the empty string denotes 0. */
  function Value(s: string): nat
    requires IsDigits(s)
  {
    if s == [] then 0 else Value(s[..|s| - 1]) * 10 + DigitValue(s[|s| - 1])
  }

  function Pow10(k: nat): (p: nat)
    ensures p >= 1
  {
    if k == 0 then 1 else 10 * Pow10(k - 1)
  }

  /** `str(n)` for a non-negative integer: the shortest digit string that
      denotes `n`. */
  function Decimal(n: nat): (r: string)
    ensures |r| >= 1 && IsDigits(r) && Value(r) == n
    ensures r[0] == '0' ==> r == "0"
  {
    if n < 10 then [DigitChar(n)]
    else
      var r := Decimal(n / 10) + [DigitChar(n % 10)];
      assert r[..|r| - 1] == Decimal(n / 10);
      r
  }

  /** A number below `10^k` needs at most `k` digits. */
  lemma {:induction false} DecimalLength(n: nat, k: nat)
    ensures k >= 1 && n < Pow10(k) ==> |Decimal(n)| <= k
  {
    if n >= 10 && k >= 1 {
      DecimalLength(n / 10, k - 1);
    }
  }

  /** A leading '0' changes neither digit-ness nor value. */
  lemma {:induction false} LeadingZeroValue(s: string)
    requires IsDigits(s)
    ensures IsDigits(['0'] + s) && Value(['0'] + s) == Value(s)
  {
    if s != [] {
      var t := ['0'] + s;
      assert t[..|t| - 1] == ['0'] + s[..|s| - 1];
      LeadingZeroValue(s[..|s| - 1]);
    }
  }

  /** Zero padding on the left keeps the value. */
  lemma {:induction false} ZerosValue(k: nat, s: string)
    requires IsDigits(s)
    ensures IsDigits(Zeros(k) + s) && Value(Zeros(k) + s) == Value(s)
  {
    if k > 0 {
      var t := Zeros(k - 1) + s;
      ZerosValue(k - 1, s);
      LeadingZeroValue(t);
      assert Zeros(k) + s == ['0'] + t;
    } else {
      assert Zeros(k) + s == s;
    }
  }

  /** `s.zfill(width)` of a digit string: `s` preceded by '0's only, as long
      as `width` or as `s` if that is longer, denoting the same number. */
  lemma ZFillDigits(s: string, width: nat)
    requires IsDigits(s)
    ensures var r := ZFill(s, width); var pad := |r| - |s|;
            && |r| == (if |s| >= width then |s| else width)
            && r[pad..] == s
            && (forall i :: 0 <= i < pad ==> r[i] == '0')
            && IsDigits(r) && Value(r) == Value(s)
  {
    if |s| < width {
      assert ZFill(s, width) == Zeros(width - |s|) + s;
      ZerosValue(width - |s|, s);
    }
  }

  /** A zero-padded numeric field of `strftime`: `n` written in decimal and
      padded with '0' on the left to `width` digits. */
  function Padded(n: nat, width: nat): (r: string)
    ensures IsDigits(r) && Value(r) == n
    ensures width >= 1 && n < Pow10(width) ==> |r| == width
    ensures |r| >= width
  {
    var d := Decimal(n);
    ZFillDigits(d, width);
    DecimalLength(n, width);
    ZFill(d, width)
  }
}
