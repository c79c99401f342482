/** Decimal digit strings: the value a run of ASCII digits denotes, and the
    canonical and zero-padded renderings of a natural number. */
module Digits {

  predicate IsDigit(c: char)
  {
    '0' <= c <= '9'
  }

  predicate AllDigits(s: string)
  {
    forall i :: 0 <= i < |s| ==> IsDigit(s[i])
  }

  function DigitValue(c: char): (d: nat)
    requires IsDigit(c)
    ensures d < 10
  {
    c as int - '0' as int
  }

  function DigitChar(d: nat): (c: char)
    requires d < 10
    ensures IsDigit(c) && DigitValue(c) == d
  {
    ('0' as int + d) as char
  }

  /** The value of a digit string read most significant digit first; "" denotes 0. */
  function ValueOf(s: string): nat
    requires AllDigits(s)
  {
    if |s| == 0 then 0 else ValueOf(s[..|s| - 1]) * 10 + DigitValue(s[|s| - 1])
  }

  function Pow10(k: nat): (p: nat)
    ensures p >= 1
  {
    if k == 0 then 1 else 10 * Pow10(k - 1)
  }

  /** The shortest decimal rendering of `n`, as Python's `str(n)` writes it. */
  function ToDigits(n: nat): (s: string)
    ensures AllDigits(s) && |s| >= 1
  {
    if n < 10 then [DigitChar(n)] else ToDigits(n / 10) + [DigitChar(n % 10)]
  }

  function Zeros(k: nat): (z: string)
    ensures |z| == k && AllDigits(z)
    ensures forall i :: 0 <= i < k ==> z[i] == '0'
  {
    if k == 0 then "" else Zeros(k - 1) + "0"
  }

  /** `n` left-padded with '0' to at least `width` characters (the `%02d` of strftime). */
  function Pad(n: nat, width: nat): (s: string)
    ensures AllDigits(s)
    ensures |s| == if |ToDigits(n)| < width then width else |ToDigits(n)|
  {
    var d := ToDigits(n);
    if |d| < width then Zeros(width - |d|) + d else d
  }

  /** Reading back the canonical rendering gives the number. */
  lemma {:induction false} ValueOfToDigits(n: nat)
    ensures ValueOf(ToDigits(n)) == n
  {
    if n >= 10 {
      var s := ToDigits(n);
      assert s[..|s| - 1] == ToDigits(n / 10);
      ValueOfToDigits(n / 10);
    }
  }

  /** The canonical rendering is one-to-one. */
  lemma ToDigitsInjective(m: nat, n: nat)
    ensures ToDigits(m) == ToDigits(n) <==> m == n
  {
    ValueOfToDigits(m);
    ValueOfToDigits(n);
  }

  /** The canonical rendering has no leading zero except for 0 itself. */
  lemma {:induction false} ToDigitsNoLeadingZero(n: nat)
    ensures ToDigits(n)[0] == '0' <==> n == 0
  {
    if n >= 10 {
      ToDigitsNoLeadingZero(n / 10);
    }
  }

  /** A number below 10^k renders in at most k digits. */
  lemma {:induction false} ToDigitsLength(n: nat, k: nat)
    requires n < Pow10(k)
    ensures |ToDigits(n)| <= k || (n == 0 && k == 0)
  {
    if n >= 10 {
      ToDigitsLength(n / 10, k - 1);
    }
  }

  lemma {:induction false} ValueOfAppend(s: string, t: string)
    requires AllDigits(s) && AllDigits(t)
    ensures AllDigits(s + t)
    ensures ValueOf(s + t) == ValueOf(s) * Pow10(|t|) + ValueOf(t)
  {
    if |t| > 0 {
      var t' := t[..|t| - 1];
      var last := DigitValue(t[|t| - 1]);
      assert (s + t)[..|s + t| - 1] == s + t';
      ValueOfAppend(s, t');
      assert ValueOf(s + t) == ValueOf(s + t') * 10 + last;
      assert Pow10(|t|) == 10 * Pow10(|t'|);
      assert ValueOf(t) == ValueOf(t') * 10 + last;
      ShiftDigit(ValueOf(s), Pow10(|t'|), ValueOf(t'), last);
    } else {
      assert s + t == s;
    }
  }

  /** Appending a digit to `x` followed by `y` shifts both by one place. */
  lemma ShiftDigit(x: nat, p: nat, y: nat, last: nat)
    ensures (x * p + y) * 10 + last == x * (10 * p) + (y * 10 + last)
  {
    assert (x * p) * 10 == x * (10 * p);
  }

  lemma {:induction false} ValueOfZeros(k: nat)
    ensures ValueOf(Zeros(k)) == 0
  {
    if k > 0 {
      assert Zeros(k)[..k - 1] == Zeros(k - 1);
      ValueOfZeros(k - 1);
    }
  }

  /** Zero padding does not change the value read back. */
  lemma ValueOfPad(n: nat, width: nat)
    ensures ValueOf(Pad(n, width)) == n
  {
    var d := ToDigits(n);
    ValueOfToDigits(n);
    if |d| < width {
      ValueOfAppend(Zeros(width - |d|), d);
      ValueOfZeros(width - |d|);
      assert ValueOf(Pad(n, width)) == 0 * Pow10(|d|) + n;
    }
  }

  lemma {:induction false} ValueBelowPow10(s: string)
    requires AllDigits(s)
    ensures ValueOf(s) < Pow10(|s|)
  {
    if |s| > 0 {
      ValueBelowPow10(s[..|s| - 1]);
    }
  }
}
