/**
 * Java's 32-bit `int`, `Integer.parseInt` and `Integer.toString` / `String.valueOf(int)`
 * in decimal, and the zero padding `SimpleDateFormat` applies to numeric fields.
 */
module JavaInt {
  import opened Wrappers

  const INT_MIN: int := -0x8000_0000
  const INT_MAX: int := 0x7fff_ffff

  /** A value of Java type `int`. */
  type Int32 = x: int | INT_MIN <= x <= INT_MAX

  predicate IsDigit(c: char) { '0' <= c <= '9' }

  predicate AllDigits(s: string) { forall i :: 0 <= i < |s| ==> IsDigit(s[i]) }

  function DigitValue(c: char): (d: nat)
    requires IsDigit(c)
    ensures d < 10
  {
    c as int - '0' as int
  }

  function DigitChar(d: nat): (c: char)
    requires d < 10
    ensures IsDigit(c) && DigitValue(c) == d
  {
    (('0' as int) + d) as char
  }

  /** The value of a string of decimal digits, most significant digit first. */
  function DigitsValue(s: string): nat
    requires AllDigits(s)
  {
    if s == [] then 0 else 10 * DigitsValue(s[..|s| - 1]) + DigitValue(s[|s| - 1])
  }

  /** Decimal notation of `n` with no leading zero, as `Integer.toString` writes it. */
  function NatToString(n: nat): (s: string)
    ensures 1 <= |s| && AllDigits(s)
    ensures n < 10 <==> |s| == 1
  {
    if n < 10 then [DigitChar(n)] else NatToString(n / 10) + [DigitChar(n % 10)]
  }

  /** `Integer.toString(i)`: a minus sign for negative values, then the magnitude. */
  function IntToString(i: int): string
  {
    if i < 0 then "-" + NatToString(-i) else NatToString(i)
  }

  /** The text after an optional leading '-' or '+'. */
  function Magnitude(s: string): string
  {
    if s != [] && (s[0] == '-' || s[0] == '+') then s[1..] else s
  }

  /** The value the sign and the digits of `s` denote. */
  function SignedValue(s: string): int
    requires AllDigits(Magnitude(s))
  {
    if s != [] && s[0] == '-' then -(DigitsValue(Magnitude(s)) as int) else DigitsValue(Magnitude(s))
  }

  /** An optional sign, at least one ASCII digit, and a value within the `int` range. */
  predicate WellFormedInt(s: string)
  {
    && Magnitude(s) != [] && AllDigits(Magnitude(s))
    && INT_MIN <= SignedValue(s) <= INT_MAX
  }

  /**
   * `Integer.parseInt(s)` in radix 10: an optional leading '-' or '+', then at least one
   * digit; anything else, or a value outside the `int` range, throws
   * `NumberFormatException`, written here as None.
   */
  function ParseInt(s: string): (r: Option<Int32>)
    ensures r.Some? <==> WellFormedInt(s)
    ensures r.Some? ==> r.value == SignedValue(s)
    ensures r.Some? ==> |s| >= 1 && IsDigit(s[|s| - 1])
    ensures r.Some? ==> (if s[0] == '-' then r.value <= 0 else r.value >= 0)
    ensures s != [] && AllDigits(s) && DigitsValue(s) <= INT_MAX ==> r == Some(DigitsValue(s))
  {
    if s == [] then None
    else
      var negative := s[0] == '-';
      var digits := if s[0] == '-' || s[0] == '+' then s[1..] else s;
      if digits == [] || !AllDigits(digits) then None
      else
        var v: int := if negative then -(DigitsValue(digits) as int) else DigitsValue(digits);
        if INT_MIN <= v <= INT_MAX then Some(v) else None
  }

  /** `n` zeros. */
  function Zeros(n: nat): (s: string)
    ensures |s| == n && AllDigits(s)
  {
    if n == 0 then [] else Zeros(n - 1) + ['0']
  }

  /**
   * A numeric `SimpleDateFormat` field of `width` pattern letters: the decimal digits of
   * `n`, padded on the left with zeros to at least `width` characters.
   */
  function Pad(n: nat, width: nat): (s: string)
    ensures AllDigits(s)
  {
    var d := NatToString(n);
    if |d| >= width then d else Zeros(width - |d|) + d
  }

  lemma {:induction false} DigitsValueAppend(s: string, c: char)
    requires AllDigits(s) && IsDigit(c)
    ensures AllDigits(s + [c]) && DigitsValue(s + [c]) == 10 * DigitsValue(s) + DigitValue(c)
  {
    assert (s + [c])[..|s|] == s;
  }

  /** Reading back the decimal notation of `n` gives `n`. */
  lemma {:induction false} NatToStringValue(n: nat)
    ensures DigitsValue(NatToString(n)) == n
  {
    if n >= 10 {
      NatToStringValue(n / 10);
      DigitsValueAppend(NatToString(n / 10), DigitChar(n % 10));
    }
  }

  lemma {:induction false} ZerosValue(n: nat)
    ensures DigitsValue(Zeros(n)) == 0
  {
    if n > 0 {
      ZerosValue(n - 1);
      DigitsValueAppend(Zeros(n - 1), '0');
    }
  }

  /** Leading zeros do not change the value of a digit string. */
  lemma {:induction false} LeadingZerosValue(z: nat, s: string)
    requires AllDigits(s)
    ensures AllDigits(Zeros(z) + s) && DigitsValue(Zeros(z) + s) == DigitsValue(s)
    decreases |s|
  {
    if s == [] {
      assert Zeros(z) + s == Zeros(z);
      ZerosValue(z);
    } else {
      var init, last := s[..|s| - 1], s[|s| - 1];
      assert s == init + [last];
      LeadingZerosValue(z, init);
      assert Zeros(z) + s == (Zeros(z) + init) + [last];
      DigitsValueAppend(init, last);
      DigitsValueAppend(Zeros(z) + init, last);
    }
  }

  /** A padded field reads back as the number it was made from, whatever the width. */
  lemma PadValue(n: nat, width: nat)
    ensures DigitsValue(Pad(n, width)) == n
  {
    var d := NatToString(n);
    NatToStringValue(n);
    if |d| < width {
      assert Pad(n, width) == Zeros(width - |d|) + d;
      LeadingZerosValue(width - |d|, d);
    } else {
      assert Pad(n, width) == d;
    }
  }

  /** A number below 10^k has at most k digits. */
  lemma {:induction false} NatToStringLength(n: nat, k: nat, bound: nat)
    requires k >= 1 && bound == Pow10(k) && n < bound
    ensures |NatToString(n)| <= k
  {
    if n >= 10 {
      assert k >= 2 by { assert Pow10(1) == 10; }
      Pow10Step(k - 1);
      assert n / 10 < Pow10(k - 1);
      NatToStringLength(n / 10, k - 1, Pow10(k - 1));
    }
  }

  function Pow10(k: nat): (p: nat)
    ensures p >= 1
  {
    if k == 0 then 1 else 10 * Pow10(k - 1)
  }

  lemma Pow10Step(k: nat)
    ensures Pow10(k + 1) == 10 * Pow10(k)
  {
  }

  /** A field padded to `width` has exactly `width` characters when `n < 10^width`. */
  lemma PadLength(n: nat, width: nat)
    requires width >= 1 && n < Pow10(width)
    ensures |Pad(n, width)| == width
  {
    NatToStringLength(n, width, Pow10(width));
  }

  /** Two padded fields of the same width are equal only for equal numbers. */
  lemma PadInjective(a: nat, b: nat, width: nat)
    ensures Pad(a, width) == Pad(b, width) <==> a == b
  {
    PadValue(a, width);
    PadValue(b, width);
  }

  /** `Integer.parseInt(Integer.toString(i)) == i` for every `int`. */
  lemma ParseIntToString(i: Int32)
    ensures ParseInt(IntToString(i)) == Some(i)
  {
    var s := IntToString(i);
    if i < 0 {
      var m: nat := -(i as int);
      var d := NatToString(m);
      NatToStringValue(m);
      assert s == "-" + d;
      assert s[0] == '-' && s[1..] == d;
    } else {
      var d := NatToString(i);
      NatToStringValue(i);
      assert s == d && IsDigit(s[0]);
    }
  }
}
