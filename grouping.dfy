/** The two global regular-expression replacements of the formatter:
    s.replace(/\B(?=(\d{k})+(?!\d))/g, ',') puts a comma before every digit
    that is followed by a whole number of k-digit groups, and
    s.replace(/,/g, '') deletes every comma. */
module Grouping {
  import opened Digits

  /** The characters \b and \B treat as word characters. */
  predicate IsWordChar(c: char)
  {
    IsDigit(c) || ('a' <= c <= 'z') || ('A' <= c <= 'Z') || c == '_'
  }

  /** \B at position i (between s[i - 1] and s[i]): both neighbours are word
      characters or neither is; outside the string counts as not a word
      character. */
  predicate NotBoundary(s: string, i: nat)
    requires i <= |s|
  {
    (i > 0 && IsWordChar(s[i - 1])) == (i < |s| && IsWordChar(s[i]))
  }

  /** The number of digits in a row from position i. */
  function DigitRun(s: string, i: nat): (n: nat)
    requires i <= |s|
    ensures i + n <= |s|
    decreases |s| - i
  {
    if i < |s| && IsDigit(s[i]) then 1 + DigitRun(s, i + 1) else 0
  }

  /** (?=(\d{k})+(?!\d)) at position i: the digits from i come in one or more
      whole groups of k and are not followed by another digit, so the run of
      digits there has a positive length divisible by k. */
  predicate GroupsAhead(s: string, i: nat, k: nat)
    requires i <= |s| && k > 0
  {
    DigitRun(s, i) > 0 && DigitRun(s, i) % k == 0
  }

  /** Where the pattern \B(?=(\d{k})+(?!\d)) matches. */
  predicate SeparatorAt(s: string, i: nat, k: nat)
    requires i <= |s| && k > 0
  {
    NotBoundary(s, i) && GroupsAhead(s, i, k)
  }

  /** The replacement from position i on: every match is an empty string at a
      position of the original string, and a comma takes its place. */
  function InsertFrom(s: string, k: nat, i: nat): string
    requires i <= |s| && k > 0
    decreases |s| - i
  {
    (if SeparatorAt(s, i, k) then "," else "") + (if i == |s| then "" else [s[i]] + InsertFrom(s, k, i + 1))
  }

  /** s.replace(/\B(?=(\d{k})+(?!\d))/g, ',') */
  function InsertSeparators(s: string, k: nat): string
    requires k > 0
  {
    InsertFrom(s, k, 0)
  }

  /** s.replace(/,/g, '') */
  function RemoveCommas(s: string): (r: string)
    ensures ',' !in r
  {
    if s == [] then [] else (if s[0] == ',' then "" else [s[0]]) + RemoveCommas(s[1..])
  }

  /** The groups of a digit string, peeled off from the right k at a time. */
  function GroupsOf(s: string, k: nat): (gs: seq<string>)
    requires k > 0
    ensures |gs| >= 1
  {
    if |s| <= k then [s] else GroupsOf(s[..|s| - k], k) + [s[|s| - k..]]
  }

  /** The groups written with a comma between each two. */
  function Join(gs: seq<string>): string
  {
    if |gs| <= 1 then (if gs == [] then "" else gs[0]) else Join(gs[..|gs| - 1]) + "," + gs[|gs| - 1]
  }

  /** The groups written one after another. */
  function Concat(gs: seq<string>): string
  {
    if gs == [] then "" else Concat(gs[..|gs| - 1]) + gs[|gs| - 1]
  }

  // The lookahead.

  /** The run found by DigitRun consists of digits and ends the digits there. */
  lemma {:induction false} DigitRunMeaning(s: string, i: nat)
    requires i <= |s|
    ensures AllDigits(s[i..i + DigitRun(s, i)])
    ensures i + DigitRun(s, i) == |s| || !IsDigit(s[i + DigitRun(s, i)])
    decreases |s| - i
  {
    if i < |s| && IsDigit(s[i]) {
      DigitRunMeaning(s, i + 1);
      assert s[i..i + DigitRun(s, i)] == [s[i]] + s[i + 1..i + 1 + DigitRun(s, i + 1)];
    }
  }

  /** A run of j digits from i that is not followed by a digit is the run
      DigitRun measures. */
  lemma {:induction false} DigitRunUnique(s: string, i: nat, j: nat)
    requires i + j <= |s| && AllDigits(s[i..i + j]) && (i + j == |s| || !IsDigit(s[i + j]))
    ensures DigitRun(s, i) == j
    decreases j
  {
    if j > 0 {
      assert s[i] == s[i..i + j][0];
      assert s[i + 1..i + j] == s[i..i + j][1..];
      DigitRunUnique(s, i + 1, j - 1);
    }
  }

  /** The lookahead holds exactly when some positive multiple j of k digits
      follows position i and no digit follows them. */
  lemma GroupsAheadMeaning(s: string, i: nat, k: nat)
    requires i <= |s| && k > 0
    ensures GroupsAhead(s, i, k) <==>
      exists j :: 0 < j && j % k == 0 && i + j <= |s| && AllDigits(s[i..i + j]) && (i + j == |s| || !IsDigit(s[i + j]))
  {
    DigitRunMeaning(s, i);
    if exists j :: 0 < j && j % k == 0 && i + j <= |s| && AllDigits(s[i..i + j]) && (i + j == |s| || !IsDigit(s[i + j])) {
      var j :| 0 < j && j % k == 0 && i + j <= |s| && AllDigits(s[i..i + j]) && (i + j == |s| || !IsDigit(s[i + j]));
      DigitRunUnique(s, i, j);
    }
  }

  // Comma removal.

  lemma {:induction false} RemoveCommasAppend(a: string, b: string)
    ensures RemoveCommas(a + b) == RemoveCommas(a) + RemoveCommas(b)
  {
    if a == [] {
      assert a + b == b;
    } else {
      var head: string := if a[0] == ',' then "" else [a[0]];
      assert (a + b)[0] == a[0];
      assert (a + b)[1..] == a[1..] + b;
      assert RemoveCommas(a + b) == head + RemoveCommas(a[1..] + b);
      RemoveCommasAppend(a[1..], b);
      assert RemoveCommas(a) == head + RemoveCommas(a[1..]);
    }
  }

  /** Deleting the commas around one comma. */
  lemma RemoveAroundComma(x: string, y: string)
    ensures RemoveCommas(x + "," + y) == RemoveCommas(x) + RemoveCommas(y)
  {
    var xc := x + ",";
    RemoveCommasAppend(xc, y);
    RemoveCommasAppend(x, ",");
    RemoveOneComma();
    var rx := RemoveCommas(x);
    assert RemoveCommas(xc) == rx + "" == rx;
  }

  lemma RemoveOneComma()
    ensures RemoveCommas(",") == ""
  {
    assert ","[1..] == [];
  }

  /** A string without commas is left as it is. */
  lemma {:induction false} RemoveCommasNone(s: string)
    requires ',' !in s
    ensures RemoveCommas(s) == s
  {
    if s != [] {
      assert s[0] != ',';
      assert ',' !in s[1..];
      RemoveCommasNone(s[1..]);
    }
  }

  /** Deleting the commas of the grouped string gives back the commas-free
      original: the replacement only ever adds commas. */
  lemma {:induction false} RemoveInsertedFrom(s: string, k: nat, i: nat)
    requires i <= |s| && k > 0
    ensures RemoveCommas(InsertFrom(s, k, i)) == RemoveCommas(s[i..])
    decreases |s| - i
  {
    var sep: string := if SeparatorAt(s, i, k) then "," else "";
    assert RemoveCommas(sep) == "";
    if i == |s| {
      assert InsertFrom(s, k, i) == sep + "";
      RemoveCommasAppend(sep, "");
    } else {
      RemoveInsertedFrom(s, k, i + 1);
      assert InsertFrom(s, k, i) == sep + ([s[i]] + InsertFrom(s, k, i + 1));
      RemoveCommasAppend(sep, [s[i]] + InsertFrom(s, k, i + 1));
      RemoveCommasAppend([s[i]], InsertFrom(s, k, i + 1));
      assert s[i..] == [s[i]] + s[i + 1..];
      RemoveCommasAppend([s[i]], s[i + 1..]);
    }
  }

  lemma RemoveInserted(s: string, k: nat)
    requires k > 0
    ensures RemoveCommas(InsertSeparators(s, k)) == RemoveCommas(s)
  {
    RemoveInsertedFrom(s, k, 0);
    assert s[0..] == s;
  }

  // Digit strings: the replacement is the grouping.

  /** n is a whole number of groups of k. */
  predicate Multiple(n: nat, k: nat)
    requires k > 0
    decreases n
  {
    n == 0 || (n >= k && Multiple(n - k, k))
  }

  lemma {:induction false} MultipleMod(n: nat, k: nat)
    requires k > 0
    ensures Multiple(n, k) <==> n % k == 0
    decreases n
  {
    if n < k {
      ModSmall(n, k);
    } else {
      ModShift(n - k, k);
      MultipleMod(n - k, k);
    }
  }

  /** A comma before t[j] whenever a whole number of groups of k follows. */
  function Tail(t: string, k: nat): string
    requires k > 0
  {
    if t == [] then [] else (if Multiple(|t|, k) then "," else "") + [t[0]] + Tail(t[1..], k)
  }

  lemma {:induction false} DigitRunAll(s: string, i: nat)
    requires i <= |s| && AllDigits(s)
    ensures DigitRun(s, i) == |s| - i
    decreases |s| - i
  {
    if i < |s| {
      DigitRunAll(s, i + 1);
    }
  }

  lemma {:induction false} InsertFromDigits(s: string, k: nat, i: nat)
    requires 0 < i <= |s| && k > 0 && AllDigits(s)
    ensures InsertFrom(s, k, i) == Tail(s[i..], k)
    decreases |s| - i
  {
    DigitRunAll(s, i);
    MultipleMod(|s| - i, k);
    if i < |s| {
      InsertFromDigits(s, k, i + 1);
      assert s[i..][1..] == s[i + 1..];
    }
  }

  lemma {:induction false} TailShort(t: string, k: nat)
    requires 0 < k && |t| < k
    ensures Tail(t, k) == t
  {
    if t != [] {
      assert !Multiple(|t|, k);
      TailShort(t[1..], k);
    }
  }

  /** Appending a whole group of k adds a comma and the group. */
  lemma {:induction false} TailAppendGroup(x: string, g: string, k: nat)
    requires 0 < k && |g| == k
    ensures Tail(x + g, k) == Tail(x, k) + "," + g
  {
    if x == [] {
      assert x + g == g;
      TailOneGroup(g, k);
    } else {
      var rest := x[1..];
      assert (x + g)[1..] == rest + g;
      assert Multiple(|x + g|, k) == Multiple(|x|, k) by {
        assert |x + g| - k == |x|;
      }
      TailAppendGroup(rest, g, k);
      TailStep(x, g, k, Tail(rest, k));
    }
  }

  lemma TailOneGroup(g: string, k: nat)
    requires 0 < k && |g| == k
    ensures Tail(g, k) == "," + g
  {
    assert Multiple(k - k, k);
    TailShort(g[1..], k);
    assert g == [g[0]] + g[1..];
  }

  lemma TailStep(x: string, g: string, k: nat, restTail: string)
    requires 0 < k && x != [] && Multiple(|x + g|, k) == Multiple(|x|, k)
    requires restTail == Tail(x[1..], k)
    requires (x + g)[1..] == x[1..] + g && Tail(x[1..] + g, k) == restTail + "," + g
    ensures Tail(x + g, k) == Tail(x, k) + "," + g
  {
    var lead: string := (if Multiple(|x|, k) then "," else "") + [x[0]];
    TailCons(x + g, k);
    TailCons(x, k);
    assert (x + g)[0] == x[0];
    Assemble(Tail(x + g, k), lead, restTail, ",", g);
  }

  /** Regrouping a concatenation: whole = lead + (rest + c + g). */
  lemma Assemble(whole: string, lead: string, rest: string, c: string, g: string)
    requires whole == lead + (rest + c + g)
    ensures whole == lead + rest + c + g
  {
    SeqAssoc(lead, rest + c, g);
    SeqAssoc(lead, rest, c);
  }

  lemma TailCons(t: string, k: nat)
    requires t != [] && k > 0
    ensures Tail(t, k) == (if Multiple(|t|, k) then "," else "") + [t[0]] + Tail(t[1..], k)
  {
  }

  lemma SeqAssoc(a: string, b: string, c: string)
    ensures a + (b + c) == (a + b) + c
  {
  }

  /** For a string of digits, the regular-expression replacement writes the
      groups of GroupsOf with commas between them. */
  lemma {:induction false} InsertSeparatorsGroups(s: string, k: nat)
    requires k > 0 && AllDigits(s)
    ensures InsertSeparators(s, k) == Join(GroupsOf(s, k))
  {
    if s == [] {
    } else {
      DigitRunAll(s, 0);
      InsertFromDigits(s, k, 1);
      assert InsertSeparators(s, k) == [s[0]] + Tail(s[1..], k);
      GroupsJoin(s, k);
    }
  }

  lemma {:induction false} GroupsJoin(s: string, k: nat)
    requires k > 0 && |s| >= 1
    ensures Join(GroupsOf(s, k)) == [s[0]] + Tail(s[1..], k)
    decreases |s|
  {
    if |s| <= k {
      TailShort(s[1..], k);
      assert s == [s[0]] + s[1..];
    } else {
      GroupsJoin(s[..|s| - k], k);
      GroupsJoinStep(s, k);
    }
  }

  lemma GroupsJoinStep(s: string, k: nat)
    requires k > 0 && |s| > k
    requires Join(GroupsOf(s[..|s| - k], k)) == [s[0]] + Tail(s[..|s| - k][1..], k)
    ensures Join(GroupsOf(s, k)) == [s[0]] + Tail(s[1..], k)
  {
    var p, g := s[..|s| - k], s[|s| - k..];
    JoinStep(s, k);
    assert s[1..] == p[1..] + g;
    TailAppendGroup(p[1..], g, k);
    Assemble([s[0]] + Tail(s[1..], k), [s[0]], Tail(p[1..], k), ",", g);
  }

  lemma JoinStep(s: string, k: nat)
    requires k > 0 && |s| > k
    ensures Join(GroupsOf(s, k)) == Join(GroupsOf(s[..|s| - k], k)) + "," + s[|s| - k..]
  {
    var gs := GroupsOf(s[..|s| - k], k) + [s[|s| - k..]];
    assert gs[..|gs| - 1] == GroupsOf(s[..|s| - k], k);
  }

  /** The shape of the groups: written one after another they give the string
      back, every group after the first has exactly k characters, and the first
      has between 1 and k (none only for the empty string). */
  lemma {:induction false} GroupsShape(s: string, k: nat)
    requires k > 0
    ensures Concat(GroupsOf(s, k)) == s
    ensures forall i :: 1 <= i < |GroupsOf(s, k)| ==> |GroupsOf(s, k)[i]| == k
    ensures |GroupsOf(s, k)[0]| <= k && (s != [] ==> |GroupsOf(s, k)[0]| >= 1)
    decreases |s|
  {
    if |s| > k {
      var p, g := s[..|s| - k], s[|s| - k..];
      GroupsShape(p, k);
      var gs := GroupsOf(p, k) + [g];
      assert gs[..|gs| - 1] == GroupsOf(p, k);
      assert s == p + g;
    }
  }
}
