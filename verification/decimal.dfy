/** Decimal digit strings: Python's `str(n)` for a natural number, zero padding as in
    the format specification `03d`, and the value of a digit string read back. */
module Decimal {

  predicate IsDigit(c: char) {
    '0' <= c <= '9'
  }

  predicate AllDigits(s: string) {
    forall i :: 0 <= i < |s| ==> IsDigit(s[i])
  }

  function DigitValue(c: char): (d: nat)
    requires IsDigit(c)
    ensures d < 10
  {
    (c as int) - ('0' as int)
  }

  function DigitChar(d: nat): (c: char)
    requires d < 10
    ensures IsDigit(c) && DigitValue(c) == d
  {
    (('0' as int) + d) as char
  }

  function Pow10(k: nat): (p: nat)
    ensures p >= 1
  {
    if k == 0 then 1 else 10 * Pow10(k - 1)
  }

  /** The number a digit string denotes, most significant digit first. */
  function ToNat(s: string): (n: nat)
    requires AllDigits(s)
    ensures n < Pow10(|s|)
  {
    if |s| == 0 then 0 else 10 * ToNat(s[..|s| - 1]) + DigitValue(s[|s| - 1])
  }

  /** `str(n)`: the decimal representation of `n`, most significant digit first. */
  function FromNat(n: nat): (s: string)
    ensures 1 <= |s|
    decreases n
  {
    if n < 10 then [DigitChar(n)] else FromNat(n / 10) + [DigitChar(n % 10)]
  }

  /** `str(n)` consists of digits, has no superfluous leading zero, and reads back as `n`. */
  lemma {:induction false} FromNatRoundTrip(n: nat)
    ensures AllDigits(FromNat(n))
    ensures ToNat(FromNat(n)) == n
    ensures n == 0 ==> FromNat(n) == "0"
    ensures n > 0 ==> FromNat(n)[0] != '0'
    decreases n
  {
    if n >= 10 {
      var t := FromNat(n / 10);
      var s := FromNat(n);
      FromNatRoundTrip(n / 10);
      assert s == t + [DigitChar(n % 10)];
      assert s[..|s| - 1] == t;
    }
  }

  /** A number below 10^k needs at most k digits. */
  lemma {:induction false} FromNatLength(n: nat, k: nat)
    requires 1 <= k && n < Pow10(k)
    ensures |FromNat(n)| <= k
    decreases n
  {
    if n >= 10 {
      assert k >= 2;
      assert n / 10 < Pow10(k - 1);
      FromNatLength(n / 10, k - 1);
    }
  }

  function Zeros(k: nat): (z: string)
    ensures |z| == k
    ensures forall i :: 0 <= i < k ==> z[i] == '0'
  {
    seq(k, _ => '0')
  }

  lemma {:induction false} ToNatZeros(k: nat)
    ensures ToNat(Zeros(k)) == 0
  {
    if k > 0 {
      assert Zeros(k)[..k - 1] == Zeros(k - 1);
      ToNatZeros(k - 1);
    }
  }

  /** Leading zeros do not change the value of a digit string. */
  lemma {:induction false} ToNatLeadingZeros(k: nat, s: string)
    requires AllDigits(s)
    ensures AllDigits(Zeros(k) + s)
    ensures ToNat(Zeros(k) + s) == ToNat(s)
    decreases |s|
  {
    var z := Zeros(k) + s;
    if |s| == 0 {
      assert z == Zeros(k);
      ToNatZeros(k);
    } else {
      var s' := s[..|s| - 1];
      assert z[..|z| - 1] == Zeros(k) + s';
      ToNatLeadingZeros(k, s');
    }
  }

  lemma {:induction false} Pow10Monotone(j: nat, k: nat)
    requires j <= k
    ensures Pow10(j) <= Pow10(k)
    decreases k
  {
    if j < k {
      Pow10Monotone(j, k - 1);
    }
  }

  /** `format(n, "0{width}d")` for a non-negative `n`: the decimal representation,
      left-padded with zeros to `width` characters when it is shorter. */
  function FormatPadded(n: nat, width: nat): (s: string)
  {
    var digits := FromNat(n);
    if |digits| < width then Zeros(width - |digits|) + digits else digits
  }

  /** The padded form reads back as `n`; it is exactly `width` long when `n` has at most
      `width` digits and is the plain representation, never truncated, otherwise. */
  lemma FormatPaddedRoundTrip(n: nat, width: nat)
    ensures AllDigits(FormatPadded(n, width))
    ensures ToNat(FormatPadded(n, width)) == n
    ensures width <= |FormatPadded(n, width)|
    ensures 1 <= width && n < Pow10(width) ==> |FormatPadded(n, width)| == width
    ensures n >= Pow10(width) ==> FormatPadded(n, width) == FromNat(n)
  {
    var digits := FromNat(n);
    FromNatRoundTrip(n);
    ToNatLeadingZeros(if width > |digits| then width - |digits| else 0, digits);
    if 1 <= width && n < Pow10(width) {
      FromNatLength(n, width);
    }
    if n >= Pow10(width) && |digits| <= width {
      Pow10Monotone(|digits|, width);
    }
  }
}
