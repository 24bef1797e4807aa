/** Java's `String.format` for the two integer conversions Calculations.kt uses:
    `"%d"` (sign and digits, no padding) and `"%0<width>d"` (zeros inserted after
    the sign up to the width). A decimal parser is the inverse the renderings are
    proved against. */
module JavaFormat {

  datatype Option<T> = None | Some(value: T)

  function Max(a: nat, b: nat): nat { if a < b then b else a }

  predicate IsDigit(c: char) { '0' <= c <= '9' }

  predicate AllDigits(s: string) { forall i :: 0 <= i < |s| ==> IsDigit(s[i]) }

  function DigitValue(c: char): (d: nat)
    requires IsDigit(c)
    ensures d < 10
  {
    c as int - '0' as int
  }

  function DigitChar(d: nat): (c: char)
    requires d < 10
    ensures IsDigit(c) && DigitValue(c) == d
  {
    ('0' as int + d) as char
  }

  function Pow10(k: nat): (p: nat)
    ensures p >= 1
  {
    if k == 0 then 1 else 10 * Pow10(k - 1)
  }

  /** The decimal digits of `n`, most significant first. */
  function Digits(n: nat): (s: string)
    ensures 1 <= |s| && AllDigits(s)
    ensures s[0] == '0' <==> n == 0
    ensures n == 0 ==> s == "0"
    decreases n
  {
    if n < 10 then [DigitChar(n)] else Digits(n / 10) + [DigitChar(n % 10)]
  }

  /** The number denoted by a string of decimal digits (leading zeros allowed). */
  function DigitsValue(s: string): nat
    requires AllDigits(s)
  {
    if s == [] then 0 else DigitsValue(s[..|s| - 1]) * 10 + DigitValue(s[|s| - 1])
  }

  /** Reading back the digits of `n` gives `n`. */
  lemma {:induction false} DigitsValueOfDigits(n: nat)
    ensures DigitsValue(Digits(n)) == n
    decreases n
  {
    if n >= 10 {
      var s := Digits(n);
      assert s[..|s| - 1] == Digits(n / 10);
      DigitsValueOfDigits(n / 10);
    }
  }

  /** A number below 10^k has at most k digits. */
  lemma {:induction false} DigitsLength(n: nat, k: nat)
    requires 1 <= k && n < Pow10(k)
    ensures |Digits(n)| <= k
    decreases k
  {
    if n >= 10 {
      assert Pow10(1) == 10;
      assert n / 10 < Pow10(k - 1);
      DigitsLength(n / 10, k - 1);
    }
  }

  function Zeros(k: nat): (s: string)
    ensures |s| == k && AllDigits(s)
    ensures forall i :: 0 <= i < k ==> s[i] == '0'
  {
    seq(k, _ => '0')
  }

  lemma {:induction false} ZerosValue(k: nat)
    ensures DigitsValue(Zeros(k)) == 0
    decreases k
  {
    if k > 0 {
      assert Zeros(k)[..k - 1] == Zeros(k - 1);
      ZerosValue(k - 1);
    }
  }

  /** Leading zeros do not change the value of a digit string. */
  lemma {:induction false} LeadingZerosIgnored(k: nat, s: string)
    requires AllDigits(s)
    ensures AllDigits(Zeros(k) + s)
    ensures DigitsValue(Zeros(k) + s) == DigitsValue(s)
    decreases |s|
  {
    var t := Zeros(k) + s;
    assert AllDigits(t) by {
      forall i | 0 <= i < |t| ensures IsDigit(t[i]) {
        if i < k { assert t[i] == Zeros(k)[i]; } else { assert t[i] == s[i - k]; }
      }
    }
    if s == [] {
      assert t == Zeros(k);
      ZerosValue(k);
    } else {
      assert t[..|t| - 1] == Zeros(k) + s[..|s| - 1];
      assert t[|t| - 1] == s[|s| - 1];
      LeadingZerosIgnored(k, s[..|s| - 1]);
    }
  }

  function Sign(i: int): string { if i < 0 then "-" else "" }

  function NatAbs(i: int): nat { if i < 0 then -i else i }

  /** `String.format("%d", i)`: a minus sign for a negative value, then the digits
      of its magnitude, without padding. */
  function FormatDecimal(i: int): (s: string)
    ensures |s| >= 1
    ensures s[0] == '-' <==> i < 0
    ensures IsDigit(s[|s| - 1])
    ensures AllDigits(s[|Sign(i)|..])
    ensures s[|Sign(i)|] == '0' ==> s == "0"
  {
    Sign(i) + Digits(NatAbs(i))
  }

  /** `String.format("%0<width>d", i)`: the `"%d"` text, with zeros inserted after
      the sign until it is `width` characters long. */
  function FormatZeroPadded(i: int, width: nat): (s: string)
    ensures |s| == Max(width, |FormatDecimal(i)|)
    ensures s[0] == '-' <==> i < 0
    ensures IsDigit(s[|s| - 1])
    ensures AllDigits(s[|Sign(i)|..]) && DigitsValue(s[|Sign(i)|..]) == NatAbs(i)
  {
    var plain := FormatDecimal(i);
    var pad := if width > |plain| then width - |plain| else 0;
    var magnitude := Zeros(pad) + Digits(NatAbs(i));
    LeadingZerosIgnored(pad, Digits(NatAbs(i)));
    DigitsValueOfDigits(NatAbs(i));
    var s := Sign(i) + magnitude;
    assert s[|Sign(i)|..] == magnitude;
    s
  }

  /** The padded form is the plain form whenever the plain form is already wide enough. */
  lemma NoPaddingWhenWide(i: int, width: nat)
    requires width <= |FormatDecimal(i)|
    ensures FormatZeroPadded(i, width) == FormatDecimal(i)
  {
  }

  /** Reading an optionally signed decimal integer: the inverse of the renderings. */
  function ParseDecimal(s: string): Option<int>
  {
    if |s| >= 2 && s[0] == '-' && AllDigits(s[1..]) then Some(-(DigitsValue(s[1..]) as int))
    else if |s| >= 1 && AllDigits(s) then Some(DigitsValue(s))
    else None
  }

  /** The zero-padded rendering reads back as the integer it renders. */
  lemma ParseFormatZeroPadded(i: int, width: nat)
    ensures ParseDecimal(FormatZeroPadded(i, width)) == Some(i)
  {
    var s := FormatZeroPadded(i, width);
    if i < 0 {
      assert |s| >= 2;
      assert ParseDecimal(s) == Some(-(DigitsValue(s[1..]) as int));
    } else {
      assert s[0..] == s;
      assert s[0] != '-';
    }
  }

  /** The plain rendering reads back as the integer it renders. */
  lemma ParseFormatDecimal(i: int)
    ensures ParseDecimal(FormatDecimal(i)) == Some(i)
  {
    NoPaddingWhenWide(i, 0);
    ParseFormatZeroPadded(i, 0);
  }

  /** An integer in [0, 1000) padded to width 3 is exactly three digits. */
  lemma ThreeDigitPadding(i: int)
    requires 0 <= i < 1000
    ensures |FormatZeroPadded(i, 3)| == 3
    ensures AllDigits(FormatZeroPadded(i, 3))
  {
    assert Pow10(3) == 1000;
    DigitsLength(i, 3);
    assert FormatZeroPadded(i, 3)[|Sign(i)|..] == FormatZeroPadded(i, 3);
  }

  /** Concrete renderings: zeros go after the sign, and a wide value is not cut. */
  lemma PaddingExamples()
    ensures FormatZeroPadded(7, 3) == "007"
    ensures FormatZeroPadded(-5, 3) == "-05"
    ensures FormatZeroPadded(1234, 3) == "1234"
    ensures FormatDecimal(-12) == "-12"
  {
    assert Digits(7) == "7";
    assert Zeros(2) == "00";
    assert FormatDecimal(7) == "7";
    assert Digits(5) == "5";
    assert Zeros(1) == "0";
    assert FormatDecimal(-5) == "-5";
    assert Digits(12) == "12";
    assert Digits(123) == "123";
    assert Digits(1234) == "1234";
    NoPaddingWhenWide(1234, 3);
  }
}
