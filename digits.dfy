/** Decimal digit strings: the numerals toFixed writes for non-negative
    integers, and the value they denote. */
module Digits {

  predicate IsDigit(c: char)
  {
    '0' <= c <= '9'
  }

  predicate AllDigits(s: string)
  {
    forall i :: 0 <= i < |s| ==> IsDigit(s[i])
  }

  function DigitValue(c: char): nat
    requires IsDigit(c)
  {
    c as int - '0' as int
  }

  function DigitChar(d: nat): (c: char)
    requires d < 10
    ensures IsDigit(c) && DigitValue(c) == d
  {
    ('0' as int + d) as char
  }

  /** The number a digit string denotes, read left to right. */
  function Value(s: string): nat
    requires AllDigits(s)
  {
    if s == [] then 0 else Value(s[..|s| - 1]) * 10 + DigitValue(s[|s| - 1])
  }

  function Pow10(n: nat): (p: nat)
    ensures p >= 1
  {
    if n == 0 then 1 else 10 * Pow10(n - 1)
  }

  /** The numeral of n without leading zeros ("0" for zero). */
  function Numeral(n: nat): (s: string)
    ensures AllDigits(s) && |s| >= 1 && Value(s) == n
    ensures s[0] == '0' ==> n == 0 && |s| == 1
  {
    if n < 10 then [DigitChar(n)]
    else
      var s := Numeral(n / 10) + [DigitChar(n % 10)];
      assert s[..|s| - 1] == Numeral(n / 10);
      s
  }

  /** A string of n zeros. */
  function Zeros(n: nat): (s: string)
    ensures |s| == n && AllDigits(s)
    ensures forall i :: 0 <= i < n ==> s[i] == '0'
  {
    if n == 0 then [] else Zeros(n - 1) + "0"
  }

  lemma {:induction false} ValueAppend(a: string, b: string)
    requires AllDigits(a) && AllDigits(b)
    ensures AllDigits(a + b) && Value(a + b) == Value(a) * Pow10(|b|) + Value(b)
  {
    if b == [] {
      assert a + b == a;
    } else {
      var init, d := b[..|b| - 1], DigitValue(b[|b| - 1]);
      assert (a + b)[..|a + b| - 1] == a + init;
      ValueAppend(a, init);
      assert Value(a + b) == Value(a + init) * 10 + d;
      assert Pow10(|b|) == 10 * Pow10(|init|);
      ShiftDigit(Value(a), Value(init), Pow10(|init|), d);
    }
  }

  lemma ShiftDigit(va: nat, vi: nat, p: nat, d: nat)
    ensures (va * p + vi) * 10 + d == va * (10 * p) + (vi * 10 + d)
  {
  }

  /** Leading zeros do not change the value. */
  lemma LeadingZeros(n: nat, s: string)
    requires AllDigits(s)
    ensures AllDigits(Zeros(n) + s) && Value(Zeros(n) + s) == Value(s)
  {
    ValueAppend(Zeros(n), s);
    ZerosValue(n);
  }

  lemma {:induction false} ZerosValue(n: nat)
    ensures Value(Zeros(n)) == 0
  {
    if n > 0 {
      assert Zeros(n)[..n - 1] == Zeros(n - 1);
      ZerosValue(n - 1);
    }
  }

  /** A string of zeros only is Zeros of its length. */
  lemma ZerosOnly(s: string)
    requires forall j :: 0 <= j < |s| ==> s[j] == '0'
    ensures s == Zeros(|s|) && Value(s) == 0
  {
    ZerosValue(|s|);
  }

  /** Digit strings hold neither a point nor a comma. */
  lemma DigitsNoMarks(s: string)
    requires AllDigits(s)
    ensures '.' !in s && ',' !in s
  {
  }

  /** A numeral of k digits denotes less than 10^k. */
  lemma {:induction false} ValueBound(s: string)
    requires AllDigits(s)
    ensures Value(s) < Pow10(|s|)
  {
    if s != [] {
      ValueBound(s[..|s| - 1]);
    }
  }

  // Facts of integer arithmetic that the solver does not find by itself.

  lemma MulAtLeast(d: int, k: int)
    requires d >= 1 && k > 0
    ensures d * k >= k
  {
  }

  lemma Distrib(a: int, b: int, k: int)
    ensures a * k - b * k == (a - b) * k
  {
  }

  /** The remainder is the one r with m == q * k + r and 0 <= r < k. */
  lemma ModUnique(m: int, k: int, q: int, r: int)
    requires k > 0 && 0 <= r < k && m == q * k + r
    ensures m % k == r
  {
    var q', r' := m / k, m % k;
    assert m == q' * k + r';
    Distrib(q', q, k);
    Distrib(q, q', k);
    if q' > q {
      MulAtLeast(q' - q, k);
    } else if q' < q {
      MulAtLeast(q - q', k);
    }
  }

  lemma ModShift(n: nat, k: nat)
    requires k > 0
    ensures (n + k) % k == n % k
  {
    var q, r := n / k, n % k;
    assert n == q * k + r;
    assert n + k == (q + 1) * k + r;
    ModUnique(n + k, k, q + 1, r);
  }

  lemma ModSmall(n: nat, k: nat)
    requires 0 <= n < k
    ensures n % k == n
  {
    ModUnique(n, k, 0, n);
  }
}
