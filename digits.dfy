/** Decimal rendering of natural numbers as Python's `%d` / `{:02d}` print them, and its inverse. */
module Digits {

  predicate IsDigit(c: char) {
    '0' <= c <= '9'
  }

  predicate AllDigits(s: string) {
    forall i :: 0 <= i < |s| ==> IsDigit(s[i])
  }

  function DigitChar(d: nat): (c: char)
    requires d < 10
    ensures IsDigit(c) && c as int - '0' as int == d
  {
    (48 + d) as char
  }

  /** `str(n)` for a non-negative integer: no sign, no leading zeros. */
  function Dec(n: nat): (s: string)
    ensures AllDigits(s) && 1 <= |s|
    ensures |s| == 1 <==> n < 10
    ensures n >= 10 ==> s[0] != '0'
  {
    if n < 10 then [DigitChar(n)] else Dec(n / 10) + [DigitChar(n % 10)]
  }

  function Zeros(k: nat): (s: string)
    ensures |s| == k && forall i :: 0 <= i < k ==> s[i] == '0'
  {
    if k == 0 then [] else Zeros(k - 1) + ['0']
  }

  /** `f"{n:0{w}d}"`: the decimal digits of `n`, left-padded with zeros to at least `w` characters. */
  function Padded(n: nat, w: nat): (s: string)
    ensures AllDigits(s) && |s| >= w && |s| >= 1
  {
    var d := Dec(n);
    if |d| >= w then d else Zeros(w - |d|) + d
  }

  /** The value of a string of decimal digits (Python's `int(s)` on such a string). */
  function ParseDec(s: string): nat
    requires AllDigits(s)
  {
    if s == [] then 0 else ParseDec(s[..|s| - 1]) * 10 + (s[|s| - 1] as int - '0' as int)
  }

  lemma {:induction false} ParseDecDec(n: nat)
    ensures ParseDec(Dec(n)) == n
  {
    if n >= 10 {
      var s := Dec(n);
      assert s[..|s| - 1] == Dec(n / 10);
      ParseDecDec(n / 10);
    }
  }

  lemma {:induction false} ParseDecLeadingZeros(k: nat, s: string)
    requires AllDigits(s)
    ensures AllDigits(Zeros(k) + s) && ParseDec(Zeros(k) + s) == ParseDec(s)
    decreases |s|, k
  {
    if s == [] {
      assert Zeros(k) + s == Zeros(k);
      if k > 0 {
        assert Zeros(k)[..k - 1] == Zeros(k - 1);
        ParseDecLeadingZeros(k - 1, []);
        assert Zeros(k - 1) + [] == Zeros(k - 1);
      }
    } else {
      var t := Zeros(k) + s;
      assert t[..|t| - 1] == Zeros(k) + s[..|s| - 1];
      ParseDecLeadingZeros(k, s[..|s| - 1]);
    }
  }

  /** Zero padding does not change the value read back. */
  lemma {:induction false} ParsePadded(n: nat, w: nat)
    ensures ParseDec(Padded(n, w)) == n
  {
    var d := Dec(n);
    ParseDecDec(n);
    if |d| < w {
      ParseDecLeadingZeros(w - |d|, d);
      ParseDecEqual(Padded(n, w), Zeros(w - |d|) + d);
    }
  }

  lemma ParseDecEqual(s: string, t: string)
    requires AllDigits(s) && s == t
    ensures ParseDec(s) == ParseDec(t)
  {
  }

  lemma {:induction false} DecInjective(a: nat, b: nat)
    requires Dec(a) == Dec(b)
    ensures a == b
  {
    ParseDecDec(a);
    ParseDecDec(b);
  }

  lemma {:induction false} DecLength(n: nat, k: nat)
    requires n < Pow10(k)
    ensures |Dec(n)| <= if k == 0 then 1 else k
  {
    if n >= 10 {
      DecLength(n / 10, k - 1);
    }
  }

  function Pow10(k: nat): (p: nat)
    ensures p >= 1
  {
    if k == 0 then 1 else 10 * Pow10(k - 1)
  }

  /** A value below 10^w pads to exactly `w` characters. */
  lemma {:induction false} PaddedWidth(n: nat, w: nat)
    requires 1 <= w && n < Pow10(w)
    ensures |Padded(n, w)| == w
  {
    DecLength(n, w);
  }
}
