/** Decimal text: what printf's %d, %0Nd and %lf print, and what atol, stoi,
    sscanf("%d") and strtod read back.  Shared by every text format of the system. */
module Decimal {

  predicate IsDigit(c: char) { '0' <= c <= '9' }

  predicate AllDigits(s: string) { forall i :: 0 <= i < |s| ==> IsDigit(s[i]) }

  function DigitValue(c: char): nat
    requires IsDigit(c)
  {
    c as int - '0' as int
  }

  function DigitChar(d: nat): (c: char)
    requires d < 10
    ensures IsDigit(c) && DigitValue(c) == d
  {
    (d + '0' as int) as char
  }

  /** The number a run of decimal digits denotes; no digits denote 0. */
  function Value(s: string): nat
    requires AllDigits(s)
  {
    if s == "" then 0 else 10 * Value(s[..|s| - 1]) + DigitValue(s[|s| - 1])
  }

  /** "%d" of a non-negative number. */
  function Digits(n: nat): (s: string)
    ensures AllDigits(s) && s != "" && Value(s) == n
  {
    if n < 10 then [DigitChar(n)] else Digits(n / 10) + [DigitChar(n % 10)]
  }

  function Pow10(k: nat): (p: nat)
    ensures p >= 1
  {
    if k == 0 then 1 else 10 * Pow10(k - 1)
  }

  lemma {:induction false} DigitsLength(n: nat, k: nat)
    requires k >= 1
    ensures |Digits(n)| <= k <==> n < Pow10(k)
  {
    if n >= 10 && k > 1 {
      DigitsLength(n / 10, k - 1);
    } else if n < 10 {
      assert Pow10(k) == 10 * Pow10(k - 1);
    }
  }

  function Zeros(k: nat): (s: string)
    ensures |s| == k && AllDigits(s) && Value(s) == 0
  {
    if k == 0 then "" else Zeros(k - 1) + "0"
  }

  lemma Shift(a: nat, p: nat, v: nat, d: nat)
    ensures 10 * (a * p + v) + d == a * (10 * p) + (10 * v + d)
  {
  }

  lemma {:induction false} ValueAppend(a: string, b: string)
    requires AllDigits(a) && AllDigits(b)
    ensures AllDigits(a + b)
    ensures Value(a + b) == Value(a) * Pow10(|b|) + Value(b)
  {
    if b == "" {
      assert a + b == a;
    } else {
      var n := |b| - 1;
      assert (a + b)[..|a + b| - 1] == a + b[..n];
      ValueAppend(a, b[..n]);
      Shift(Value(a), Pow10(n), Value(b[..n]), DigitValue(b[n]));
    }
  }

  /** "%0<width>d" of a non-negative number. */
  function Padded(n: nat, width: nat): (s: string)
    ensures AllDigits(s) && Value(s) == n && s != ""
    ensures |s| == if |Digits(n)| <= width then width else |Digits(n)|
  {
    var d := Digits(n);
    if |d| >= width then d
    else
      ValueAppend(Zeros(width - |d|), d);
      Zeros(width - |d|) + d
  }

  lemma PaddedFits(n: nat, width: nat)
    requires width >= 1
    ensures |Padded(n, width)| == width <==> n < Pow10(width)
  {
    DigitsLength(n, width);
  }

  /** First index at or after i that is not a digit: where `while (isdigit(*s)) s++` stops. */
  function DigitsEnd(s: string, i: nat): (e: nat)
    requires i <= |s|
    ensures i <= e <= |s|
    ensures forall k :: i <= k < e ==> IsDigit(s[k])
    ensures e < |s| ==> !IsDigit(s[e])
    decreases |s| - i
  {
    if i < |s| && IsDigit(s[i]) then DigitsEnd(s, i + 1) else i
  }

  lemma DigitsEndUnique(s: string, i: nat, e: nat)
    requires i <= e <= |s| && forall k :: i <= k < e ==> IsDigit(s[k])
    requires e < |s| ==> !IsDigit(s[e])
    ensures DigitsEnd(s, i) == e
  {
  }

  // ---------------------------------------------------------------- %lf

  const MILLION: nat := 1000000

  /** Round to the nearest integer, ties to even, as printf does with an exact value. */
  function RoundHalfEven(r: real): (n: int)
    ensures r - 0.5 <= n as real <= r + 0.5
  {
    var f := r.Floor;
    var frac := r - f as real;
    if frac < 0.5 then f
    else if frac > 0.5 then f + 1
    else if f % 2 == 0 then f
    else f + 1
  }

  function Abs(x: real): (a: real)
    ensures a >= 0.0
  {
    if x < 0.0 then -x else x
  }

  /** The magnitude of x in millionths, as "%lf" prints it. */
  function Micros(x: real): (m: nat)
  {
    RoundHalfEven(Abs(x) * 1000000.0)
  }

  function SignedMicros(x: real): int
  {
    if x < 0.0 then -(Micros(x) as int) else Micros(x)
  }

  /** x after printing with "%lf" and reading back. */
  function SixDecimals(x: real): (y: real)
    ensures y * 1000000.0 == SignedMicros(x) as real
  {
    SignedMicros(x) as real / 1000000.0
  }

  predicate IsSixDecimal(x: real)
  {
    (x * 1000000.0).Floor as real == x * 1000000.0
  }

  lemma SixDecimalsOfMillionths(x: real, k: int)
    requires x * 1000000.0 == k as real
    ensures SixDecimals(x) == x && IsSixDecimal(x)
  {
    var a := if x < 0.0 then -k else k;
    assert Abs(x) * 1000000.0 == a as real;
    assert Micros(x) == a;
    assert SignedMicros(x) == k;
  }

  /** Printing with six decimals loses nothing exactly on multiples of a millionth. */
  lemma SixDecimalsExact(x: real)
    ensures IsSixDecimal(SixDecimals(x))
    ensures SixDecimals(x) == x <==> IsSixDecimal(x)
    ensures SixDecimals(SixDecimals(x)) == SixDecimals(x)
  {
    SixDecimalsOfMillionths(SixDecimals(x), SignedMicros(x));
    if IsSixDecimal(x) {
      SixDecimalsOfMillionths(x, (x * 1000000.0).Floor);
    }
  }

  /** "%lf" */
  function Fixed(x: real): (s: string)
  {
    (if x < 0.0 then "-" else "") + Digits(Micros(x) / MILLION) + "." + Padded(Micros(x) % MILLION, 6)
  }
}
