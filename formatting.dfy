/** formatWithCommas, parseInputNumber and formatInputNumber: digit grouping
    in the Indian or the international style, removal of trailing zeros from
    the decimal part, and the conversions between what an input field shows
    and what the component keeps. */
module Formatting {
  import opened Wrappers
  import opened Digits
  import opened Grouping

  datatype NumberSystem = Indian | International

  /** s.split(c) */
  function Split(s: string, c: char): (parts: seq<string>)
    ensures |parts| >= 1 && forall i :: 0 <= i < |parts| ==> c !in parts[i]
  {
    if s == [] then [""]
    else
      var rest := Split(s[1..], c);
      if s[0] == c then [""] + rest else [[s[0]] + rest[0]] + rest[1..]
  }

  /** The pieces written back with c between each two. */
  function JoinWith(parts: seq<string>, c: char): string
  {
    if |parts| <= 1 then (if parts == [] then "" else parts[0])
    else parts[0] + [c] + JoinWith(parts[1..], c)
  }

  /** parts[0]: everything before the first '.'. */
  function IntegerPart(numStr: string): string
  {
    Split(numStr, '.')[0]
  }

  /** parts[1] ? '.' + parts[1] : '': the piece after the first '.', up to
      a second '.', with its point; nothing when that piece is missing or
      empty (both falsy). */
  function DecimalPart(numStr: string): string
  {
    var parts := Split(numStr, '.');
    if |parts| > 1 && parts[1] != "" then "." + parts[1] else ""
  }

  predicate AllZeros(t: string)
  {
    forall j :: 0 <= j < |t| ==> t[j] == '0'
  }

  /** The pattern \.?0+$ matches from position i: an optional point, one or
      more zeros and the end of the string. */
  predicate TrailingZerosAt(d: string, i: nat)
    requires i < |d|
  {
    (d[i] == '.' && i + 1 < |d| && AllZeros(d[i + 1..])) || AllZeros(d[i..])
  }

  /** Where the leftmost match starts (|d| when there is none). */
  function FirstMatch(d: string, i: nat): (j: nat)
    requires i <= |d|
    ensures i <= j <= |d|
    decreases |d| - i
  {
    if i == |d| then |d| else if TrailingZerosAt(d, i) then i else FirstMatch(d, i + 1)
  }

  /** decimalPart.replace(/\.?0+$/, '') */
  function CleanDecimal(d: string): string
  {
    d[..FirstMatch(d, 0)]
  }

  /** The integer part with its separators. */
  function FormattedInteger(integerPart: string, system: NumberSystem): string
  {
    match system
    case Indian =>
      if |integerPart| <= 3 then integerPart
      else
        var lastThree := integerPart[|integerPart| - 3..];
        var remaining := integerPart[..|integerPart| - 3];
        InsertSeparators(remaining, 2) + "," + lastThree
    case International => InsertSeparators(integerPart, 3)
  }

  /** formatWithCommas(numStr, system) */
  function FormatWithCommas(numStr: string, system: NumberSystem): string
  {
    FormattedInteger(IntegerPart(numStr), system) + CleanDecimal(DecimalPart(numStr))
  }

  /** parseInputNumber: what the component keeps of an edited input field. */
  function ParseInputNumber(value: string): string
  {
    if value == "" then "" else RemoveCommas(value)
  }

  /** formatInputNumber: what an input field shows for the kept text. The
      parseFloat and Number.prototype.toString of the engine are parameters:
      parse yields None for NaN. */
  function FormatInputNumber(value: string, system: NumberSystem,
                             parse: string -> Option<real>, show: real -> string): string
  {
    if value == "" then ""
    else
      match parse(RemoveCommas(value))
      case None => value
      case Some(numValue) => FormatWithCommas(show(numValue), system)
  }

  // Splitting on the point.

  /** Splitting and joining again gives the string back. */
  lemma {:induction false} SplitJoin(s: string, c: char)
    ensures JoinWith(Split(s, c), c) == s
  {
    if s != [] {
      SplitJoin(s[1..], c);
      var rest := Split(s[1..], c);
      if s[0] == c {
        assert s == [c] + s[1..];
        if |rest| == 1 {
          assert Split(s, c) == ["", rest[0]];
        }
      } else if |rest| > 1 {
        var parts := Split(s, c);
        assert parts[1..] == rest[1..];
        assert s == [s[0]] + (rest[0] + [c] + JoinWith(rest[1..], c));
      }
    }
  }

  /** A string without the separator is one piece. */
  lemma {:induction false} SplitNone(s: string, c: char)
    requires c !in s
    ensures Split(s, c) == [s]
  {
    if s != [] {
      assert c !in s[1..];
      SplitNone(s[1..], c);
      assert s == [s[0]] + s[1..];
    }
  }

  /** Every piece is made of characters of s. */
  lemma {:induction false} SplitChars(s: string, c: char, x: char)
    requires x !in s
    ensures forall i :: 0 <= i < |Split(s, c)| ==> x !in Split(s, c)[i]
  {
    if s != [] {
      assert x !in s[1..];
      SplitChars(s[1..], c, x);
    }
  }

  /** A string without a point is all integer part. */
  lemma SplitWhole(a: string)
    requires '.' !in a
    ensures IntegerPart(a) == a && DecimalPart(a) == ""
  {
    SplitNone(a, '.');
  }

  /** "digits." and "digits.fraction", as toFixed writes them. */
  lemma SplitFraction(a: string, f: string)
    requires '.' !in a && '.' !in f
    ensures IntegerPart(a + "." + f) == a && DecimalPart(a + "." + f) == (if f == "" then "" else "." + f)
  {
    SplitAt(a, f);
  }

  lemma {:induction false} SplitAt(a: string, f: string)
    requires '.' !in a && '.' !in f
    ensures Split(a + "." + f, '.') == [a, f]
  {
    if a == [] {
      assert a + "." + f == "." + f;
      assert ("." + f)[1..] == f;
      SplitNone(f, '.');
    } else {
      assert (a + "." + f)[1..] == a[1..] + "." + f;
      assert '.' !in a[1..];
      SplitAt(a[1..], f);
      assert a == [a[0]] + a[1..];
    }
  }

  // Trailing zeros.

  /** A decimal part as formatWithCommas builds it: empty, or a point and a
      nonempty piece without a point. */
  predicate DecimalShape(d: string)
  {
    d == "" || (|d| >= 2 && d[0] == '.' && '.' !in d[1..])
  }

  /** The decimal part formatWithCommas takes from any string has that shape. */
  lemma DecimalPartShape(numStr: string)
    ensures DecimalShape(DecimalPart(numStr))
  {
  }

  /** For every input of formatWithCommas, the cleaned decimal part is empty
      or a point followed by characters that do not end in '0'. */
  lemma CleanedDecimalPart(numStr: string)
    ensures var r := CleanDecimal(DecimalPart(numStr));
      r == "" || (|r| >= 2 && r[0] == '.' && r[|r| - 1] != '0')
  {
    DecimalPartShape(numStr);
    CleanDecimalShape(DecimalPart(numStr));
  }

  lemma {:induction false} FirstMatchFacts(d: string, i: nat)
    requires i <= |d|
    ensures forall j :: i <= j < FirstMatch(d, i) ==> !TrailingZerosAt(d, j)
    ensures FirstMatch(d, i) < |d| ==> TrailingZerosAt(d, FirstMatch(d, i))
    decreases |d| - i
  {
    if i < |d| && !TrailingZerosAt(d, i) {
      FirstMatchFacts(d, i + 1);
    }
  }

  lemma ZerosSuffix(d: string, i: nat)
    requires i <= |d|
    ensures AllZeros(d[i..]) <==> forall j :: i <= j < |d| ==> d[j] == '0'
  {
    assert forall j :: i <= j < |d| ==> d[j] == d[i..][j - i];
  }

  /** What removing the trailing zeros leaves: a prefix of the decimal part
      that is empty or ends in a digit other than 0, and all that is removed is
      zeros and, when nothing is left, the point. */
  lemma CleanDecimalShape(d: string)
    requires DecimalShape(d)
    ensures var r := CleanDecimal(d);
      && r == d[..|r|]
      && (r == "" || (|r| >= 2 && r[|r| - 1] != '0'))
      && forall j :: |r| <= j < |d| ==> d[j] == '0' || j == 0
  {
    var m := FirstMatch(d, 0);
    FirstMatchFacts(d, 0);
    var r := CleanDecimal(d);
    assert |r| == m;
    if m < |d| {
      if m > 0 {
        assert d[m] != '.';
        ZerosSuffix(d, m);
        ZerosSuffix(d, m - 1);
        assert !TrailingZerosAt(d, m - 1);
      } else {
        ZerosSuffix(d, 1);
      }
    } else if d != "" {
      assert r == d;
      ZerosSuffix(d, |d| - 1);
      assert !TrailingZerosAt(d, |d| - 1);
    }
  }

  // Grouping of the integer part.

  /** The Indian groups: the last three digits, and before them pairs. */
  function IndianGroups(integerPart: string): seq<string>
  {
    if |integerPart| <= 3 then [integerPart]
    else GroupsOf(integerPart[..|integerPart| - 3], 2) + [integerPart[|integerPart| - 3..]]
  }

  lemma JoinSnoc(gs: seq<string>, g: string)
    requires |gs| >= 1
    ensures Join(gs + [g]) == Join(gs) + "," + g
    ensures Concat(gs + [g]) == Concat(gs) + g
  {
    assert (gs + [g])[..|gs|] == gs;
  }

  /** Indian grouping: up to three digits stay as they are; a longer integer
      part ends in a group of three, preceded by groups of two, the leading
      one of one or two digits. */
  lemma IndianGrouping(integerPart: string)
    requires AllDigits(integerPart)
    ensures var gs := IndianGroups(integerPart);
      && FormattedInteger(integerPart, Indian) == Join(gs)
      && Concat(gs) == integerPart
      && (|integerPart| <= 3 ==> FormattedInteger(integerPart, Indian) == integerPart)
      && (|integerPart| > 3 ==>
            && |gs[|gs| - 1]| == 3
            && (forall i :: 1 <= i < |gs| - 1 ==> |gs[i]| == 2)
            && 1 <= |gs[0]| <= 2)
  {
    if |integerPart| > 3 {
      IndianLongGrouping(integerPart);
    }
  }

  lemma IndianLongGrouping(integerPart: string)
    requires AllDigits(integerPart) && |integerPart| > 3
    ensures var gs := GroupsOf(integerPart[..|integerPart| - 3], 2) + [integerPart[|integerPart| - 3..]];
      && FormattedInteger(integerPart, Indian) == Join(gs)
      && Concat(gs) == integerPart
      && |gs[|gs| - 1]| == 3
      && (forall i :: 1 <= i < |gs| - 1 ==> |gs[i]| == 2)
      && 1 <= |gs[0]| <= 2
  {
    var n := |integerPart|;
    var remaining, lastThree := integerPart[..n - 3], integerPart[n - 3..];
    assert AllDigits(remaining);
    InsertSeparatorsGroups(remaining, 2);
    GroupsShape(remaining, 2);
    var gs := GroupsOf(remaining, 2);
    JoinSnoc(gs, lastThree);
    assert (gs + [lastThree])[0] == gs[0];
    assert integerPart == remaining + lastThree;
  }

  /** International grouping: groups of three, the leading one of one to
      three digits. */
  lemma InternationalGrouping(integerPart: string)
    requires AllDigits(integerPart)
    ensures var gs := GroupsOf(integerPart, 3);
      && FormattedInteger(integerPart, International) == Join(gs)
      && Concat(gs) == integerPart
      && (forall i :: 1 <= i < |gs| ==> |gs[i]| == 3)
      && |gs[0]| <= 3 && (integerPart != "" ==> 1 <= |gs[0]|)
  {
    InsertSeparatorsGroups(integerPart, 3);
    GroupsShape(integerPart, 3);
  }

  // The examples below take their string as a parameter fixed by a requires
  // clause rather than as a literal argument: on a literal, the verifier would
  // unroll the recursive definitions eagerly.

  /** "1234" in groups of two. */
  lemma PairsExample()
    ensures InsertSeparators("1234", 2) == "12,34"
  {
    InsertSeparatorsGroups("1234", 2);
    assert "1234"[..2] == "12" && "1234"[2..] == "34";
    assert GroupsOf("1234", 2) == ["12", "34"];
    JoinSnoc(["12"], "34");
  }

  /** "1234" in groups of three. */
  lemma TriplesExample()
    ensures InsertSeparators("1234", 3) == "1,234"
  {
    InsertSeparatorsGroups("1234", 3);
    assert "1234"[..1] == "1" && "1234"[1..] == "234";
    assert GroupsOf("1234", 3) == ["1", "234"];
    JoinSnoc(["1"], "234");
  }

  /** "1234567" is written 12,34,567 in the Indian system. */
  lemma IndianExample(numStr: string)
    requires numStr == "1234567"
    ensures FormatWithCommas(numStr, Indian) == "12,34,567"
  {
    SplitWhole(numStr);
    assert numStr[..4] == "1234" && numStr[4..] == "567";
    PairsExample();
  }

  /** "1234567" is written 1,234,567 in the international system. */
  lemma InternationalExample(numStr: string)
    requires numStr == "1234567"
    ensures FormatWithCommas(numStr, International) == "1,234,567"
  {
    SplitWhole(numStr);
    InternationalGrouping(numStr);
    InternationalGroupsExample(numStr);
  }

  lemma InternationalGroupsExample(numStr: string)
    requires numStr == "1234567"
    ensures Join(GroupsOf(numStr, 3)) == "1,234,567"
  {
    LastGroupExample(numStr);
    JoinSnoc(GroupsOf("1234", 3), "567");
    InsertSeparatorsGroups("1234", 3);
    TriplesExample();
  }

  lemma LastGroupExample(numStr: string)
    requires numStr == "1234567"
    ensures GroupsOf(numStr, 3) == GroupsOf("1234", 3) + ["567"]
  {
    assert numStr[..4] == "1234" && numStr[4..] == "567";
  }

  /** Trailing zeros go. */
  lemma TrailingZeroExample(numStr: string)
    requires numStr == "1234.50"
    ensures FormatWithCommas(numStr, International) == "1,234.5"
  {
    assert numStr == "1234" + "." + "50";
    SplitFraction("1234", "50");
    var d := ".50";
    assert d[2..] == "0" && d[1..] == "50";
    assert TrailingZerosAt(d, 2);
    assert !AllZeros(d[1..]) && !TrailingZerosAt(d, 1);
    assert !AllZeros(d[0..]) && !TrailingZerosAt(d, 0);
    assert CleanDecimal(d) == d[..2] == ".5";
    TriplesExample();
    assert IntegerPart(numStr) == "1234" && DecimalPart(numStr) == d;
  }

  /** A point with only zeros after it goes too. */
  lemma ZeroDecimalsExample(numStr: string)
    requires numStr == "100.00"
    ensures FormatWithCommas(numStr, Indian) == "100"
  {
    assert numStr == "100" + "." + "00";
    SplitFraction("100", "00");
    assert TrailingZerosAt(".00", 0);
  }

  /** A sign counts as a digit position in the Indian branch: "-123" has four
      characters, so a comma goes after the sign. */
  lemma NegativeIndianExample(numStr: string)
    requires numStr == "-123"
    ensures FormatWithCommas(numStr, Indian) == "-,123"
  {
    SplitWhole(numStr);
    var remaining := numStr[..1];
    assert remaining == "-" && numStr[1..] == "123";
    SignAlone(remaining);
  }

  lemma SignAlone(m: string)
    requires m == "-"
    ensures InsertSeparators(m, 2) == "-"
  {
    assert DigitRun(m, 0) == 0 && DigitRun(m, 1) == 0;
    assert !SeparatorAt(m, 1, 2) && !SeparatorAt(m, 0, 2);
    assert InsertFrom(m, 2, 1) == "";
    assert InsertFrom(m, 2, 0) == [m[0]] + "";
  }

  // Comma removal after formatting.

  /** Deleting the commas of formatWithCommas' output gives the integer part
      followed by the cleaned decimal part, both without their commas. */
  lemma CommasRemoved(numStr: string, system: NumberSystem)
    ensures RemoveCommas(FormatWithCommas(numStr, system)) ==
      RemoveCommas(IntegerPart(numStr)) + RemoveCommas(CleanDecimal(DecimalPart(numStr)))
  {
    var ip, cd := IntegerPart(numStr), CleanDecimal(DecimalPart(numStr));
    RemoveCommasAppend(FormattedInteger(ip, system), cd);
    IntegerCommasRemoved(ip, system);
  }

  /** The separators are all that grouping adds. */
  lemma IntegerCommasRemoved(ip: string, system: NumberSystem)
    ensures RemoveCommas(FormattedInteger(ip, system)) == RemoveCommas(ip)
  {
    if system == International {
      RemoveInserted(ip, 3);
    } else if |ip| > 3 {
      IndianCommasRemoved(ip);
    }
  }

  lemma IndianCommasRemoved(ip: string)
    requires |ip| > 3
    ensures RemoveCommas(FormattedInteger(ip, Indian)) == RemoveCommas(ip)
  {
    var remaining, lastThree := ip[..|ip| - 3], ip[|ip| - 3..];
    var grouped := InsertSeparators(remaining, 2);
    assert FormattedInteger(ip, Indian) == grouped + "," + lastThree;
    RemoveAroundComma(grouped, lastThree);
    RemoveInserted(remaining, 2);
    assert ip == remaining + lastThree;
    RemoveCommasAppend(remaining, lastThree);
  }

  /** For a string without commas (what the component keeps, and what
      toString and toFixed write), deleting the commas gives the integer part
      and the cleaned decimal part. */
  lemma CommasRemovedPlain(numStr: string, system: NumberSystem)
    requires ',' !in numStr
    ensures RemoveCommas(FormatWithCommas(numStr, system)) == IntegerPart(numStr) + CleanDecimal(DecimalPart(numStr))
  {
    CommasRemoved(numStr, system);
    SplitChars(numStr, '.', ',');
    var parts := Split(numStr, '.');
    RemoveCommasNone(IntegerPart(numStr));
    var d := DecimalPart(numStr);
    assert ',' !in d;
    assert CleanDecimal(d) == d[..FirstMatch(d, 0)];
    assert ',' !in CleanDecimal(d);
    RemoveCommasNone(CleanDecimal(d));
  }

  // The input fields.

  /** What the component keeps has no commas, and keeping it again changes
      nothing; text without commas is kept as typed. */
  lemma ParseIdempotent(value: string)
    ensures ',' !in ParseInputNumber(value)
    ensures ParseInputNumber(ParseInputNumber(value)) == ParseInputNumber(value)
    ensures ',' !in value ==> ParseInputNumber(value) == value
  {
    RemoveCommasNone(ParseInputNumber(value));
    if ',' !in value {
      RemoveCommasNone(value);
    }
  }

  /** Typing the shown text back keeps the integer part and the cleaned decimal
      part of the number's string; non-numeric text is kept as it was. */
  lemma ParseAfterFormat(value: string, system: NumberSystem, parse: string -> Option<real>, show: real -> string)
    ensures parse(RemoveCommas(value)).None? ==>
      ParseInputNumber(FormatInputNumber(value, system, parse, show)) == ParseInputNumber(value)
    ensures value != "" && parse(RemoveCommas(value)).Some? && ',' !in show(parse(RemoveCommas(value)).value) ==>
      var str := show(parse(RemoveCommas(value)).value);
      ParseInputNumber(FormatInputNumber(value, system, parse, show)) == IntegerPart(str) + CleanDecimal(DecimalPart(str))
  {
    if value != "" && parse(RemoveCommas(value)).Some? {
      var str := show(parse(RemoveCommas(value)).value);
      if ',' !in str {
        CommasRemovedPlain(str, system);
      }
    }
  }

  /** For a number, a field shows the same for the typed text as for what the
      component keeps of it (parseFloat of the empty string is NaN). */
  lemma FormatAfterParse(value: string, system: NumberSystem, parse: string -> Option<real>, show: real -> string)
    requires parse("").None? && parse(RemoveCommas(value)).Some?
    ensures FormatInputNumber(ParseInputNumber(value), system, parse, show) == FormatInputNumber(value, system, parse, show)
  {
    RemoveCommasNone(RemoveCommas(value));
  }
}
