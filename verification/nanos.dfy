/**
 * `format_nanos` of `repr::strconv`: the fractional-seconds suffix that
 * `format_time`, `format_timestamp` and `format_timestamptz` append.
 */
module Nanos {

  /** The argument is a Rust `u32`. */
  const U32Limit: nat := 0x1_0000_0000

  const NanosPerSecond: nat := 1_000_000_000

  function Pow10(k: nat): (r: nat)
    ensures r >= 1
  {
    if k == 0 then 1 else 10 * Pow10(k - 1)
  }

  lemma Pow10Nine()
    ensures Pow10(9) == NanosPerSecond
    ensures Pow10(10) == 10_000_000_000
  {
  }

  lemma {:induction false} Pow10Monotone(a: nat, b: nat)
    requires a <= b
    ensures Pow10(a) <= Pow10(b)
  {
    if a < b {
      Pow10Monotone(a, b - 1);
    }
  }

  function DigitChar(v: nat): (c: char)
    requires v < 10
    ensures '0' <= c <= '9'
  {
    ('0' as int + v) as char
  }

  predicate IsDigits(s: string) {
    forall i | 0 <= i < |s| :: '0' <= s[i] <= '9'
  }

  /** The decimal rendering of `n` (Rust's `Display` for integers). */
  function Digits(n: nat): (r: string)
    ensures |r| >= 1 && IsDigits(r)
    ensures r[|r| - 1] == DigitChar(n % 10)
  {
    if n < 10 then [DigitChar(n)] else Digits(n / 10) + [DigitChar(n % 10)]
  }

  /** The number a digit string denotes. */
  function DigitsValue(s: string): nat
    requires IsDigits(s)
  {
    if s == [] then 0 else DigitsValue(s[..|s| - 1]) * 10 + (s[|s| - 1] as int - '0' as int)
  }

  lemma {:induction false} DigitsValueOfDigits(n: nat)
    ensures DigitsValue(Digits(n)) == n
  {
    if n >= 10 {
      DigitsValueOfDigits(n / 10);
      var d := Digits(n);
      assert d[..|d| - 1] == Digits(n / 10);
    }
  }

  /** A number below `10^j` has at most `j` digits. */
  lemma {:induction false} DigitsLength(n: nat, j: nat)
    requires 1 <= j && n < Pow10(j)
    ensures |Digits(n)| <= j
  {
    if n >= 10 {
      assert j >= 2;
      DigitsLength(n / 10, j - 1);
    }
  }

  function Zeros(k: nat): (r: string)
    ensures |r| == k && forall i | 0 <= i < k :: r[i] == '0'
  {
    if k == 0 then [] else ['0'] + Zeros(k - 1)
  }

  /** `{:0width$}`: left-pads with zeros up to `width` characters and never truncates. */
  function ZeroPad(d: string, width: nat): (r: string)
    ensures |r| == if |d| >= width then |d| else width
  {
    if |d| >= width then d else Zeros(width - |d|) + d
  }

  lemma {:induction false} DigitsValueAppend(z: string, d: string)
    requires IsDigits(z) && IsDigits(d) && DigitsValue(z) == 0
    ensures IsDigits(z + d) && DigitsValue(z + d) == DigitsValue(d)
  {
    if d == [] {
      assert z + d == z;
    } else {
      assert (z + d)[..|z + d| - 1] == z + d[..|d| - 1];
      DigitsValueAppend(z, d[..|d| - 1]);
    }
  }

  lemma {:induction false} ZerosValue(k: nat)
    ensures IsDigits(Zeros(k)) && DigitsValue(Zeros(k)) == 0
  {
    if k > 0 {
      ZerosValue(k - 1);
      var z := Zeros(k);
      assert z[..k - 1] == Zeros(k - 1) by {
        assert z == Zeros(k - 1) + ['0'];
      }
    }
  }

  /** Divides out the trailing decimal zeros of `n`, lowering `width` by one
      for each; `n` is the multiple of `10^(width - w)` the result `m` says. */
  function StripZeros(n: nat, width: int): (r: (nat, int))
    requires n > 0
    ensures r.0 > 0 && r.0 % 10 != 0 && r.1 <= width
    ensures r.0 * Pow10(width - r.1) == n
    decreases n
  {
    if n % 10 == 0 then
      var r := StripZeros(n / 10, width - 1);
      ShiftTen(r.0, width - 1 - r.1, n);
      r
    else (n, width)
  }

  /** Multiplying by one more power of ten undoes a division by ten. */
  lemma ShiftTen(m: nat, k: nat, n: nat)
    requires n % 10 == 0 && m * Pow10(k) == n / 10
    ensures m * Pow10(k + 1) == n
  {
    calc {
      m * Pow10(k + 1);
      m * (10 * Pow10(k));
      { MulAssocTen(m, Pow10(k)); }
      10 * (m * Pow10(k));
      10 * (n / 10);
    }
  }

  lemma MulAssocTen(a: int, b: int)
    ensures a * (10 * b) == 10 * (a * b)
  {
  }

  /** A `u32` has at most nine trailing zeros, so the width never drops below 0. */
  lemma StripZerosWidth(n: nat)
    requires 0 < n < U32Limit
    ensures StripZeros(n, 9).1 >= 0
  {
    var (m, w) := StripZeros(n, 9);
    if w < 0 {
      Pow10Monotone(10, 9 - w);
      Pow10Nine();
      assert false;
    }
  }

  /** The text `format_nanos` writes, as the source computes it. */
  function NanosText(nanos: nat): (r: string)
    requires nanos < U32Limit
    ensures nanos == 0 <==> r == []
  {
    if nanos == 0 then []
    else
      StripZerosWidth(nanos);
      var (m, w) := StripZeros(nanos, 9);
      "." + ZeroPad(Digits(m), w)
  }

  /** `format_nanos` with its loop: appends `NanosText(nanos)` to the buffer. */
  method FormatNanos(buf: string, nanos: nat) returns (out: string)
    requires nanos < U32Limit
    ensures out == buf + NanosText(nanos)
  {
    out := buf;
    if nanos > 0 {
      var n := nanos;
      var width: int := 9;
      StripZerosWidth(nanos);
      while n % 10 == 0
        invariant 0 < n && 0 <= width <= 9
        invariant StripZeros(n, width) == StripZeros(nanos, 9)
        decreases n
      {
        assert StripZeros(n, width) == StripZeros(n / 10, width - 1);
        width := width - 1;
        n := n / 10;
      }
      assert StripZeros(n, width) == (n, width);
      out := out + "." + ZeroPad(Digits(n), width);
    }
  }

  /** For a nanosecond count below one second, the suffix is `.` and at most
      nine digits with no trailing `0`, and read as a decimal fraction it is
      exactly `nanos / 10^9` seconds. */
  lemma NanosFraction(nanos: nat)
    requires 0 < nanos < NanosPerSecond
    ensures var t := NanosText(nanos);
      && 2 <= |t| <= 10 && t[0] == '.' && IsDigits(t[1..]) && t[|t| - 1] != '0'
      && DigitsValue(t[1..]) * Pow10(10 - |t|) == nanos
  {
    StripBelowSecond(nanos);
    var (m, w) := StripZeros(nanos, 9);
    PaddedDigits(m, w);
    var t := NanosText(nanos);
    assert t == "." + ZeroPad(Digits(m), w);
    assert t[1..] == ZeroPad(Digits(m), w);
  }

  /** `m` zero-padded to `w` places, when it has at most `w` digits, is
      exactly `w` digits with the value `m`, ending in the last digit of `m`. */
  lemma PaddedDigits(m: nat, w: nat)
    requires 1 <= w && m < Pow10(w)
    ensures var p := ZeroPad(Digits(m), w);
      |p| == w && IsDigits(p) && DigitsValue(p) == m && p[w - 1] == DigitChar(m % 10)
  {
    var d := Digits(m);
    DigitsLength(m, w);
    DigitsValueOfDigits(m);
    var z := Zeros(w - |d|);
    ZerosValue(w - |d|);
    DigitsValueAppend(z, d);
    assert ZeroPad(d, w) == z + d;
    assert (z + d)[w - 1] == d[|d| - 1];
  }

  /** Below one second, the stripped value has at most `w` digits, `w >= 1`. */
  lemma StripBelowSecond(nanos: nat)
    requires 0 < nanos < NanosPerSecond
    ensures var (m, w) := StripZeros(nanos, 9); 1 <= w <= 9 && m < Pow10(w)
  {
    Pow10Nine();
    StripZerosWidth(nanos);
    var (m, w) := StripZeros(nanos, 9);
    if m >= Pow10(w) {
      Pow10Add(w, 9 - w);
      MulMonotone(Pow10(w), m, Pow10(9 - w));
      assert false;
    }
  }

  lemma MulMonotone(a: nat, b: nat, c: nat)
    requires a <= b
    ensures a * c <= b * c
  {
  }

  lemma {:induction false} Pow10Add(a: nat, b: nat)
    ensures Pow10(a) * Pow10(b) == Pow10(a + b)
  {
    if a > 0 {
      Pow10Add(a - 1, b);
    }
  }

  /** A whole number of seconds (a leap-second count from chrono can exceed
      `10^9`) strips nine zeros and prints the leftover as the fraction. */
  lemma LeapSecondSuffix()
    ensures NanosText(1_500_000_000) == ".15"
  {
    var (m, w) := StripZeros(1_500_000_000, 9);
    assert StripZeros(1_500_000_000, 9) == StripZeros(15, 1);
    assert (m, w) == (15, 1);
    assert Digits(15) == "15";
  }

  /** The suffix written for the fractional part of the second only. */
  function NanosTextCorrected(nanos: nat): (r: string)
    requires nanos < U32Limit
  {
    NanosText(nanos % NanosPerSecond)
  }

  /** For every `u32`, the corrected suffix reads as the fraction of the
      current second, `(nanos mod 10^9) / 10^9`, and is empty exactly when
      that fraction is zero. */
  lemma NanosCorrectedFraction(nanos: nat)
    requires nanos < U32Limit
    ensures var t := NanosTextCorrected(nanos);
      && (t == [] <==> nanos % NanosPerSecond == 0)
      && (t != [] ==> 2 <= |t| <= 10 && t[0] == '.' && IsDigits(t[1..]) && t[|t| - 1] != '0'
                      && DigitsValue(t[1..]) * Pow10(10 - |t|) == nanos % NanosPerSecond)
  {
    if nanos % NanosPerSecond != 0 {
      NanosFraction(nanos % NanosPerSecond);
    }
  }
}
