/** formatNumber: how the result table shows an area or a price. Values below
    0.001 go to exponential notation; larger ones are divided by the largest
    power of ten of the number system that does not exceed them, written with
    toFixed(precision), grouped and given the matching suffix. */
module NumberFormat {
  import opened Wrappers
  import opened Digits
  import opened Grouping
  import opened Formatting

  /** The integer n closest to x * 10^p, the larger one on a tie: the n of
      Number.prototype.toFixed. */
  function Rounded(x: real, p: nat): int
  {
    (x * Pow10(p) as real + 0.5).Floor
  }

  lemma RoundedClose(x: real, p: nat)
    ensures -0.5 < Rounded(x, p) as real - x * Pow10(p) as real <= 0.5
    ensures x >= 0.0 ==> Rounded(x, p) >= 0
  {
  }

  /** The digits toFixed writes for n / 10^p: the numeral of n, padded with
      leading zeros to more than p digits, with a point before the last p of
      them when p > 0. */
  function Layout(n: nat, p: nat): string
  {
    var m := Numeral(n);
    if p == 0 then m
    else
      var padded := Pad(m, p);
      var k := |padded|;
      padded[..k - p] + "." + padded[k - p..]
  }

  /** What toFixed writes for 0 <= x < 10^21. */
  function FixedDigits(x: real, p: nat): string
    requires x >= 0.0
  {
    RoundedClose(x, p);
    Layout(Rounded(x, p), p)
  }

  /** x.toFixed(p) for a finite x: a minus sign for a negative x; from 10^21 on,
      Number.prototype.toString (the parameter show) of the magnitude. */
  function ToFixed(x: real, p: nat, show: real -> string): string
  {
    var sign := if x < 0.0 then "-" else "";
    var magnitude := if x < 0.0 then -x else x;
    sign + (if magnitude >= 1000000000000000000000.0 then show(magnitude) else FixedDigits(magnitude, p))
  }

  /** A divisor and the suffix that goes with it. */
  datatype Scale = Scale(divisor: real, suffix: string)

  /** The scales of each number system, largest first. */
  function Scales(system: NumberSystem): seq<Scale>
  {
    match system
    case Indian => [Scale(10000000.0, " Cr"), Scale(100000.0, " L"), Scale(1000.0, " K")]
    case International => [Scale(1000000000.0, "B"), Scale(1000000.0, "M"), Scale(1000.0, "K")]
  }

  /** The threshold tests of formatNumber. */
  function ScaleOf(system: NumberSystem, value: real): Scale
  {
    match system
    case Indian =>
      if value >= 10000000.0 then Scale(10000000.0, " Cr")
      else if value >= 100000.0 then Scale(100000.0, " L")
      else if value >= 1000.0 then Scale(1000.0, " K")
      else Scale(1.0, "")
    case International =>
      if value >= 1000000000.0 then Scale(1000000000.0, "B")
      else if value >= 1000000.0 then Scale(1000000.0, "M")
      else if value >= 1000.0 then Scale(1000.0, "K")
      else Scale(1.0, "")
  }

  /** formatNumber(num) with the settings numberSystem and precision. num is
      None for null and NaN; toExponential(3) and Number.prototype.toString
      are the parameters expo and show. */
  function FormatNumber(num: Option<real>, system: NumberSystem, precision: nat,
                        expo: real -> string, show: real -> string): (r: string)
    ensures num == None || num == Some(0.0) ==> r == "0"
    ensures num.Some? && num.value != 0.0 && num.value < 0.001 ==> r == expo(num.value)
  {
    match num
    case None => "0"
    case Some(value) =>
      if value == 0.0 then "0"
      else if value < 0.001 then expo(value)
      else
        var scale := ScaleOf(system, value);
        FormatWithCommas(ToFixed(value / scale.divisor, precision, show), system) + scale.suffix
  }

  // The scale.

  /** From 1000 on, the scale is the largest of the system's scales whose
      divisor does not exceed the value; below 1000 there is none. */
  lemma LargestScale(system: NumberSystem, value: real)
    ensures value >= 1000.0 ==>
      && ScaleOf(system, value) in Scales(system)
      && ScaleOf(system, value).divisor <= value
      && forall t :: t in Scales(system) && t.divisor <= value ==> t.divisor <= ScaleOf(system, value).divisor
    ensures value < 1000.0 ==> ScaleOf(system, value) == Scale(1.0, "")
  {
  }

  /** The Indian suffixes and the ranges they stand for. */
  lemma IndianSuffixes(value: real)
    ensures ScaleOf(Indian, value).suffix == " Cr" <==> value >= 10000000.0
    ensures ScaleOf(Indian, value).suffix == " L" <==> 100000.0 <= value < 10000000.0
    ensures ScaleOf(Indian, value).suffix == " K" <==> 1000.0 <= value < 100000.0
    ensures ScaleOf(Indian, value).suffix == "" <==> value < 1000.0
  {
  }

  /** The international suffixes and the ranges they stand for. */
  lemma InternationalSuffixes(value: real)
    ensures ScaleOf(International, value).suffix == "B" <==> value >= 1000000000.0
    ensures ScaleOf(International, value).suffix == "M" <==> 1000000.0 <= value < 1000000000.0
    ensures ScaleOf(International, value).suffix == "K" <==> 1000.0 <= value < 1000000.0
    ensures ScaleOf(International, value).suffix == "" <==> value < 1000.0
  {
  }

  /** The quotient that is written: at least 1 under a suffix, below 100 under
      lakh and thousand in the Indian system, below 1000 under million and
      thousand in the international one and without a suffix. */
  lemma QuotientRange(system: NumberSystem, value: real)
    requires value >= 0.001
    ensures var scale := ScaleOf(system, value);
      var q := value / scale.divisor;
      && (scale.suffix == "" ==> q == value && q < 1000.0)
      && (scale.suffix != "" ==> q >= 1.0)
      && (system == Indian && scale.suffix in {" L", " K"} ==> q < 100.0)
      && (system == International && scale.suffix in {"M", "K"} ==> q < 1000.0)
  {
  }

  // What toFixed writes.

  /** toFixed writes integer digits a and, when p > 0, a point and p more
      digits b; together they denote n. */
  lemma LayoutParts(n: nat, p: nat) returns (a: string, b: string)
    ensures Layout(n, p) == (if p == 0 then a else a + "." + b)
    ensures AllDigits(a) && |a| >= 1 && AllDigits(b) && |b| == p
    ensures |a| == 1 || a[0] != '0'
    ensures Value(a) * Pow10(p) + Value(b) == n
  {
    if p == 0 {
      a, b := WholeParts(n);
    } else {
      a, b := PointParts(n, p);
    }
  }

  /** With no decimals, toFixed writes the numeral alone. */
  lemma WholeParts(n: nat) returns (a: string, b: string)
    ensures Layout(n, 0) == a && b == ""
    ensures AllDigits(a) && |a| >= 1 && (|a| == 1 || a[0] != '0')
    ensures Value(a) * Pow10(0) + Value(b) == n
  {
    a, b := Numeral(n), "";
    assert Value(a) * Pow10(0) + Value(b) == Value(a) * 1 + 0;
  }

  /** With p > 0 decimals, toFixed writes the padded numeral with a point
      before its last p digits. */
  lemma PointParts(n: nat, p: nat) returns (a: string, b: string)
    requires p > 0
    ensures Layout(n, p) == a + "." + b
    ensures AllDigits(a) && |a| >= 1 && AllDigits(b) && |b| == p
    ensures |a| == 1 || a[0] != '0'
    ensures Value(a) * Pow10(p) + Value(b) == n
  {
    var m := Numeral(n);
    assert Value(m) == n;
    a, b := PadSplit(m, p);
    var padded := Pad(m, p);
    assert Layout(n, p) == padded[..|padded| - p] + "." + padded[|padded| - p..];
  }

  /** Splitting the padded numeral before its last p digits leaves at least
      one integer digit, with no leading zero unless it is the digit 0 alone. */
  lemma PadSplit(m: string, p: nat) returns (a: string, b: string)
    requires AllDigits(m) && |m| >= 1 && (m[0] == '0' ==> |m| == 1)
    ensures var padded := Pad(m, p); var k := |padded|;
      a == padded[..k - p] && b == padded[k - p..]
    ensures AllDigits(a) && |a| >= 1 && AllDigits(b) && |b| == p
    ensures |a| == 1 || a[0] != '0'
    ensures Value(a) * Pow10(p) + Value(b) == Value(m)
  {
    var padded := Pad(m, p);
    var k := |padded|;
    a, b := padded[..k - p], padded[k - p..];
    if |m| > p {
      assert padded == m && a[0] == m[0];
    }
    assert padded == a + b;
    assert forall i :: 0 <= i < |a| ==> a[i] == padded[i];
    assert forall i :: 0 <= i < |b| ==> b[i] == padded[k - p + i];
    ValueAppend(a, b);
  }

  /** The numeral padded with leading zeros to more than p digits. */
  function Pad(m: string, p: nat): (padded: string)
    requires AllDigits(m)
    ensures AllDigits(padded) && |padded| > p && |padded| >= |m| && Value(padded) == Value(m)
  {
    if |m| <= p then LeadingZeros(p + 1 - |m|, m); Zeros(p + 1 - |m|) + m else m
  }

  /** Removing the trailing zeros of the p digits b after the point leaves
      digits f that do not end in 0 and denote the same fraction. */
  lemma CleanedFraction(b: string) returns (f: string)
    requires AllDigits(b) && |b| >= 1
    ensures CleanDecimal("." + b) == (if f == "" then "" else "." + f)
    ensures AllDigits(f) && |f| <= |b| && (f == "" || f[|f| - 1] != '0')
    ensures Value(b) == Value(f) * Pow10(|b| - |f|)
  {
    DigitsNoMarks(b);
    var d := "." + b;
    CleanDecimalShape(d);
    var cleaned := CleanDecimal(d);
    if cleaned == "" {
      f := "";
      ZeroTail(b, 0);
      assert b[0..] == b;
    } else {
      f := KeptFraction(b, cleaned);
    }
  }

  /** A nonempty cleaned decimal part: the point and the digits f of b kept
      before the trailing zeros. */
  lemma KeptFraction(b: string, cleaned: string) returns (f: string)
    requires AllDigits(b) && 2 <= |cleaned| <= |b| + 1
    requires cleaned == ("." + b)[..|cleaned|] && cleaned[|cleaned| - 1] != '0'
    requires forall j :: |cleaned| <= j < |b| + 1 ==> ("." + b)[j] == '0'
    ensures cleaned == "." + f && AllDigits(f) && |f| <= |b| && f[|f| - 1] != '0'
    ensures Value(b) == Value(f) * Pow10(|b| - |f|)
  {
    f := cleaned[1..];
    assert cleaned == "." + f;
    assert f == b[..|f|];
    ZeroTail(b, |f|);
    assert b == f + b[|f|..];
    ValueAppend(f, b[|f|..]);
  }

  /** The digits of b from i on are zeros when those of "." + b from i + 1 on
      are. */
  lemma ZeroTail(b: string, i: nat)
    requires i <= |b| && forall j :: i + 1 <= j < |b| + 1 ==> ("." + b)[j] == '0'
    ensures AllDigits(b[i..]) && Value(b[i..]) == 0
  {
    var t := b[i..];
    forall j | 0 <= j < |t| ensures t[j] == '0' {
      assert t[j] == ("." + b)[i + 1 + j];
    }
    ZerosOnly(t);
  }

  /** formatWithCommas of what toFixed writes for n / 10^p: the integer digits
      a in groups and the fraction f without trailing zeros; a and f denote
      n / 10^p, and deleting the commas gives a, the point and f back. */
  lemma FixedFormatted(n: nat, p: nat, system: NumberSystem) returns (a: string, f: string)
    ensures var tail := if f == "" then "" else "." + f;
      && FormatWithCommas(Layout(n, p), system) == FormattedInteger(a, system) + tail
      && RemoveCommas(FormattedInteger(a, system) + tail) == a + tail
    ensures AllDigits(a) && |a| >= 1 && AllDigits(f) && |f| <= p && (f == "" || f[|f| - 1] != '0')
    ensures |a| == 1 || a[0] != '0'
    ensures Value(a) * Pow10(p) + Value(f) * Pow10(p - |f|) == n
  {
    a, f := FixedSplit(n, p);
    GroupedCommas(a, f, system);
  }

  /** The parts formatWithCommas finds in what toFixed writes. */
  lemma FixedSplit(n: nat, p: nat) returns (a: string, f: string)
    ensures IntegerPart(Layout(n, p)) == a
    ensures CleanDecimal(DecimalPart(Layout(n, p))) == if f == "" then "" else "." + f
    ensures AllDigits(a) && |a| >= 1 && AllDigits(f) && |f| <= p && (f == "" || f[|f| - 1] != '0')
    ensures |a| == 1 || a[0] != '0'
    ensures Value(a) * Pow10(p) + Value(f) * Pow10(p - |f|) == n
  {
    var b;
    a, b := LayoutParts(n, p);
    DigitsNoMarks(a);
    DigitsNoMarks(b);
    if p == 0 {
      f := "";
      SplitWhole(a);
      assert CleanDecimal("") == "";
      assert Value(f) * Pow10(p - |f|) == 0 == Value(b);
    } else {
      SplitFraction(a, b);
      f := CleanedFraction(b);
      assert Value(b) == Value(f) * Pow10(p - |f|);
    }
  }

  /** Deleting the commas of the grouped digits and the fraction. */
  lemma GroupedCommas(a: string, f: string, system: NumberSystem)
    requires AllDigits(a) && AllDigits(f)
    ensures var tail := if f == "" then "" else "." + f;
      RemoveCommas(FormattedInteger(a, system) + tail) == a + tail
  {
    var tail := if f == "" then "" else "." + f;
    RemoveCommasAppend(FormattedInteger(a, system), tail);
    IntegerCommasRemoved(a, system);
    DigitsNoMarks(a);
    DigitsNoMarks(f);
    RemoveCommasNone(a);
    RemoveCommasNone(tail);
  }

  // What formatNumber writes.

  /** From 0.001 on (and below 10^21 after the division) formatNumber writes
      the integer digits a of the rounded quotient in groups, then the fraction
      f without its trailing zeros, then the suffix; a and f denote the
      quotient rounded to `precision` places (Rounded, which RoundedClose
      bounds), and deleting the commas gives a, the point and f back. */
  lemma FormatNumberReading(value: real, system: NumberSystem, precision: nat,
                            expo: real -> string, show: real -> string) returns (a: string, f: string)
    requires value >= 0.001 && value / ScaleOf(system, value).divisor < 1000000000000000000000.0
    ensures var scale := ScaleOf(system, value);
      var tail := if f == "" then "" else "." + f;
      && FormatNumber(Some(value), system, precision, expo, show) == FormattedInteger(a, system) + tail + scale.suffix
      && RemoveCommas(FormattedInteger(a, system) + tail) == a + tail
    ensures AllDigits(a) && |a| >= 1 && AllDigits(f) && |f| <= precision && (f == "" || f[|f| - 1] != '0')
    ensures |a| == 1 || a[0] != '0'
    ensures Value(a) * Pow10(precision) + Value(f) * Pow10(precision - |f|) ==
      Rounded(value / ScaleOf(system, value).divisor, precision)
  {
    var scale := ScaleOf(system, value);
    assert scale.divisor >= 1.0;
    var q := value / scale.divisor;
    DivPositive(value, scale.divisor);
    RoundedClose(q, precision);
    var n := Rounded(q, precision);
    assert ToFixed(q, precision, show) == Layout(n, precision);
    assert FormatNumber(Some(value), system, precision, expo, show) ==
      FormatWithCommas(Layout(n, precision), system) + scale.suffix;
    a, f := FixedFormatted(n, precision, system);
  }

  // Two worked examples. As in the formatting examples, the inputs are
  // parameters fixed by a requires clause rather than literals, so that the
  // verifier does not unroll the recursive definitions eagerly.

  /** 12345678 in the Indian system with two decimals is written "1.23 Cr". */
  lemma CroreExample(value: real, expo: real -> string, show: real -> string)
    requires value == 12345678.0
    ensures FormatNumber(Some(value), Indian, 2, expo, show) == "1.23 Cr"
  {
    var q := CroreQuotient(value);
    var t := CroreDigits(q, show);
    Scaled(value, Indian, 2, expo, show, q, t);
    CroreCommas(t);
  }

  /** 12345678 falls in the crore range, and the quotient is 1.2345678. */
  lemma CroreQuotient(value: real) returns (q: real)
    requires value == 12345678.0
    ensures ScaleOf(Indian, value) == Scale(10000000.0, " Cr")
    ensures q == value / 10000000.0 && q == 1.2345678
  {
    q := value / 10000000.0;
    QuotientIs(value, 10000000.0, 1.2345678);
  }

  /** From 0.001 on, formatNumber writes the formatted toFixed of the quotient
      and then the suffix. */
  lemma Scaled(value: real, system: NumberSystem, precision: nat, expo: real -> string, show: real -> string,
                q: real, t: string)
    requires value >= 0.001 && q == value / ScaleOf(system, value).divisor && t == ToFixed(q, precision, show)
    ensures FormatNumber(Some(value), system, precision, expo, show) ==
      FormatWithCommas(t, system) + ScaleOf(system, value).suffix
  {
  }

  lemma CroreDigits(q: real, show: real -> string) returns (t: string)
    requires q == 1.2345678
    ensures t == ToFixed(q, 2, show) && t == "1.23"
  {
    assert q * Pow10(2) as real + 0.5 == 123.95678;
    assert Rounded(q, 2) == 123;
    CroreLayout(123);
    t := ToFixed(q, 2, show);
  }

  lemma CroreLayout(n: nat)
    requires n == 123
    ensures Layout(n, 2) == "1.23"
  {
    assert Numeral(1) == "1";
    assert Numeral(12) == "1" + [DigitChar(2)] == "12";
    assert Numeral(n) == "12" + [DigitChar(3)] == "123";
    assert Pad("123", 2) == "123";
  }

  lemma CroreCommas(t: string)
    requires t == "1.23"
    ensures FormatWithCommas(t, Indian) == "1.23"
  {
    assert t == "1" + "." + "23";
    SplitFraction("1", "23");
    var d := ".23";
    NoZerosAt(d, 0);
    NoZerosAt(d, 1);
    NoZerosAt(d, 2);
    assert FirstMatch(d, 0) == 3;
    assert CleanDecimal(d) == d[..3] == d;
    assert IntegerPart(t) == "1" && DecimalPart(t) == d;
    assert FormattedInteger("1", Indian) == "1";
    assert "1" + d == t;
  }

  /** Nothing of ".23" from i on is trailing zeros: its last digit is 3. */
  lemma NoZerosAt(d: string, i: nat)
    requires d == ".23" && i < 3
    ensures !TrailingZerosAt(d, i)
  {
    assert d[i..][2 - i] == '3';
    if i == 0 {
      assert d[1..][1] == '3';
    }
  }

  /** 1234567 in the international system with no decimals is written "1M". */
  lemma MillionExample(value: real, expo: real -> string, show: real -> string)
    requires value == 1234567.0
    ensures FormatNumber(Some(value), International, 0, expo, show) == "1M"
  {
    var q := MillionQuotient(value);
    var t := ToFixed(q, 0, show);
    assert Rounded(q, 0) == 1;
    assert t == "1";
    Scaled(value, International, 0, expo, show, q, t);
    SingleDigit(t);
  }

  /** 1234567 falls in the million range, and the quotient is 1.234567. */
  lemma MillionQuotient(value: real) returns (q: real)
    requires value == 1234567.0
    ensures ScaleOf(International, value) == Scale(1000000.0, "M")
    ensures q == value / 1000000.0 && q == 1.234567
  {
    q := value / 1000000.0;
    QuotientIs(value, 1000000.0, 1.234567);
  }

  lemma SingleDigit(t: string)
    requires t == "1"
    ensures FormatWithCommas(t, International) == "1"
  {
    SplitWhole(t);
    assert !SeparatorAt(t, 0, 3) && !SeparatorAt(t, 1, 3);
    assert InsertFrom(t, 3, 1) == "";
    assert InsertSeparators(t, 3) == [t[0]] + "";
    assert CleanDecimal("") == "";
  }

  /** x / d is q when q times d is x. */
  lemma QuotientIs(x: real, d: real, q: real)
    requires d != 0.0 && q * d == x
    ensures x / d == q
  {
  }

  lemma DivPositive(x: real, d: real)
    requires x > 0.0 && d > 0.0
    ensures x / d > 0.0
  {
  }
}
