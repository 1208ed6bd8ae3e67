/**
 * PHP's decimal rendering of integers (string interpolation and `.` concatenation of an
 * int) and the value of a string of decimal digits.
 */
module Decimal {

  function Pow10(k: nat): (p: nat)
    ensures p >= 1
  {
    if k == 0 then 1 else 10 * Pow10(k - 1)
  }

  predicate IsDigit(c: char) {
    '0' <= c <= '9'
  }

  predicate IsDigits(s: string) {
    forall i | 0 <= i < |s| :: IsDigit(s[i])
  }

  function DigitChar(d: nat): (c: char)
    requires d < 10
    ensures IsDigit(c)
  {
    (48 + d) as char
  }

  function DigitValue(c: char): (d: nat)
    requires IsDigit(c)
    ensures d < 10
  {
    c as int - 48
  }

  /** The decimal string PHP prints for a non-negative integer: no sign, no leading zero. */
  function Digits(n: nat): (s: string)
    ensures 1 <= |s|
    ensures IsDigits(s)
    ensures s[0] == '0' ==> n == 0
  {
    if n < 10 then [DigitChar(n)] else Digits(n / 10) + [DigitChar(n % 10)]
  }

  /** The decimal string PHP prints for any integer. */
  function IntString(x: int): (s: string)
    ensures 1 <= |s|
  {
    if x < 0 then "-" + Digits(-x) else Digits(x)
  }

  /** The value of a string of decimal digits, read most significant digit first. */
  function Value(s: string): (v: nat)
    requires IsDigits(s)
    ensures v < Pow10(|s|)
  {
    if s == [] then 0 else 10 * Value(s[..|s| - 1]) + DigitValue(s[|s| - 1])
  }

  /** Reading back what `Digits` prints gives the number printed. */
  lemma {:induction false} ValueOfDigits(n: nat)
    ensures Value(Digits(n)) == n
  {
    var s := Digits(n);
    if n >= 10 {
      assert s[..|s| - 1] == Digits(n / 10);
      ValueOfDigits(n / 10);
    }
  }

  /** The value of a concatenation: the left part is shifted by the length of the right. */
  lemma {:induction false} ValueOfConcat(a: string, b: string)
    requires IsDigits(a) && IsDigits(b)
    ensures IsDigits(a + b)
    ensures Value(a + b) == Value(a) * Pow10(|b|) + Value(b)
  {
    if b != [] {
      var b' := b[..|b| - 1];
      var d := DigitValue(b[|b| - 1]);
      assert (a + b)[..|a + b| - 1] == a + b';
      assert IsDigits(a + b') by { assert forall i | 0 <= i < |a + b'| :: (a + b')[i] == (a + b)[i]; }
      ValueOfConcat(a, b');
      assert Value(a + b) == 10 * Value(a + b') + d;
      assert Value(b) == 10 * Value(b') + d by { assert b[..|b| - 1] == b'; }
      ShiftByTen(Value(a), Pow10(|b'|), Value(b'), d);
    } else {
      assert a + b == a;
    }
  }

  lemma ShiftByTen(x: nat, p: nat, y: nat, d: nat)
    ensures 10 * (x * p + y) + d == x * (10 * p) + (10 * y + d)
  {
  }

  /** `Digits(n)` has `k` characters exactly when `n` has `k` decimal digits. */
  lemma {:induction false} DigitsLength(n: nat)
    ensures n < Pow10(|Digits(n)|)
    ensures Pow10(|Digits(n)| - 1) <= n || n == 0
  {
    if n >= 10 {
      DigitsLength(n / 10);
    }
  }

  lemma {:induction false} Pow10Monotone(j: nat, k: nat)
    requires j <= k
    ensures Pow10(j) <= Pow10(k)
  {
    if j < k {
      Pow10Monotone(j, k - 1);
    }
  }

  lemma {:induction false} Pow10Add(j: nat, k: nat)
    ensures Pow10(j + k) == Pow10(j) * Pow10(k)
  {
    if k > 0 {
      Pow10Add(j, k - 1);
    }
  }

  /** A number below 10^k prints with at most `k` digits, one of at least 10^(k-1) with at least `k`. */
  lemma DigitsLengthBounds(n: nat, k: nat)
    ensures 1 <= k && n < Pow10(k) ==> |Digits(n)| <= k
    ensures 1 <= k && Pow10(k - 1) <= n ==> k <= |Digits(n)|
  {
    DigitsLength(n);
    if 1 <= k && n < Pow10(k) && |Digits(n)| > k {
      Pow10Monotone(k, |Digits(n)| - 1);
    }
    if 1 <= k && Pow10(k - 1) <= n && |Digits(n)| < k {
      Pow10Monotone(|Digits(n)|, k - 1);
    }
  }
}
