/** Decimal rendering of integers as Go's fmt package does it for `%d` and
    for `%0Nd` (zero-padded to a minimum width), with the inverse reading of
    a digit string. */
module Decimal {

  predicate IsDigit(c: char) {
    '0' <= c <= '9'
  }

  predicate AllDigits(s: string) {
    forall i :: 0 <= i < |s| ==> IsDigit(s[i])
  }

  function DigitChar(d: nat): (c: char)
    requires d < 10
    ensures IsDigit(c) && c as int - '0' as int == d
  {
    "0123456789"[d]
  }

  /** The number a string of decimal digits denotes. */
  function Value(s: string): nat
    requires AllDigits(s)
  {
    if s == [] then 0
    else 10 * Value(s[..|s| - 1]) + (s[|s| - 1] as int - '0' as int)
  }

  function Pow10(k: nat): (p: nat)
    ensures p >= 1
  {
    if k == 0 then 1 else 10 * Pow10(k - 1)
  }

  /** `%d` of a non-negative number: its shortest decimal form. */
  function Itoa(n: nat): (s: string)
    ensures 1 <= |s| && AllDigits(s)
    ensures |s| > 1 ==> s[0] != '0'
    ensures Value(s) == n
  {
    if n < 10 then [DigitChar(n)]
    else
      var s := Itoa(n / 10) + [DigitChar(n % 10)];
      assert s[..|s| - 1] == Itoa(n / 10);
      s
  }

  /** A number below 10^w needs at most w digits. */
  lemma {:induction false} ItoaWidth(n: nat, w: nat)
    requires 1 <= w && n < Pow10(w)
    ensures |Itoa(n)| <= w
  {
    if n >= 10 {
      ItoaWidth(n / 10, w - 1);
    }
  }

  function Zeros(k: nat): (z: string)
    ensures |z| == k && AllDigits(z)
  {
    if k == 0 then "" else Zeros(k - 1) + "0"
  }

  /** Leading zeros do not change the value of a digit string. */
  lemma {:induction false} ZerosValue(k: nat, ds: string)
    requires AllDigits(ds)
    ensures AllDigits(Zeros(k) + ds) && Value(Zeros(k) + ds) == Value(ds)
  {
    var s := Zeros(k) + ds;
    if ds == [] {
      assert s == Zeros(k);
      ZerosAreZero(k);
    } else {
      assert s[..|s| - 1] == Zeros(k) + ds[..|ds| - 1];
      ZerosValue(k, ds[..|ds| - 1]);
    }
  }

  lemma {:induction false} ZerosAreZero(k: nat)
    ensures Value(Zeros(k)) == 0
  {
    if k > 0 {
      ZerosAreZero(k - 1);
      assert Zeros(k)[..k - 1] == Zeros(k - 1);
    }
  }

  /** Digits padded on the left with zeros to at least `width` characters. */
  function LeftZeros(ds: string, width: nat): (s: string)
    requires AllDigits(ds)
    ensures |s| == if |ds| < width then width else |ds|
    ensures AllDigits(s) && Value(s) == Value(ds)
  {
    ZerosValue(if |ds| < width then width - |ds| else 0, ds);
    Zeros(if |ds| < width then width - |ds| else 0) + ds
  }

  /** Go's `%0<width>d`: the sign counts toward the width and the zeros go
      between the sign and the digits. */
  function ZeroPad(v: int, width: nat): (s: string)
    ensures v >= 0 ==> AllDigits(s) && Value(s) == v
    ensures v >= 0 ==> |s| == if |Itoa(v)| < width then width else |Itoa(v)|
    ensures v < 0 ==> 2 <= |s| && s[0] == '-' && AllDigits(s[1..]) && Value(s[1..]) == -v
    ensures v < 0 ==> |s| == if 1 + |Itoa(-v)| < width then width else 1 + |Itoa(-v)|
    ensures |s| >= width
  {
    if v >= 0 then LeftZeros(Itoa(v), width)
    else "-" + LeftZeros(Itoa(-v), if width > 0 then width - 1 else 0)
  }
}
