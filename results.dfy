/** The rows of the result list and the order they are displayed in: the list is
    sorted by area, largest first, with a stable sort, so rows of equal area keep
    the order in which they were produced. */
module Results {
  import opened Conversion

  /** The price column of a row: no price, a finite amount, or the non-finite
      value that a division by a zero area produces. */
  datatype PriceCell = Null | Amount(value: real) | NotFinite

  datatype Row = Row(unit: Unit, unitName: string, area: real, pricePerUnit: PriceCell, isOriginal: bool)

  /** What a sort with the comparator (a, b) => b.area - a.area establishes. */
  predicate NonIncreasing(s: seq<Row>)
  {
    forall i, j :: 0 <= i < j < |s| ==> s[i].area >= s[j].area
  }

  /** The rows of s whose area is v, in the order of s. A sort is stable when it
      keeps this subsequence for every v. */
  function WithArea(s: seq<Row>, v: real): (r: seq<Row>)
    ensures |r| <= |s|
  {
    if s == [] then []
    else (if s[0].area == v then [s[0]] else []) + WithArea(s[1..], v)
  }

  /** The units of the rows, in order. */
  function UnitsOf(s: seq<Row>): (r: seq<Unit>)
    ensures |r| == |s| && forall i :: 0 <= i < |s| ==> r[i] == s[i].unit
  {
    seq(|s|, i requires 0 <= i < |s| => s[i].unit)
  }

  lemma UnitsOfAppend(a: seq<Row>, b: seq<Row>)
    ensures UnitsOf(a + b) == UnitsOf(a) + UnitsOf(b)
  {
  }

  /** Puts x after every row of s whose area is at least x's area, looking from
      the right as an insertion sort does. */
  function Insert(s: seq<Row>, x: Row): seq<Row>
  {
    if s == [] || s[|s| - 1].area >= x.area then s + [x]
    else Insert(s[..|s| - 1], x) + [s[|s| - 1]]
  }

  /** The stable sort by area, largest first, as an insertion sort. */
  function SortByArea(s: seq<Row>): seq<Row>
  {
    if s == [] then [] else Insert(SortByArea(s[..|s| - 1]), s[|s| - 1])
  }

  lemma {:induction false} WithAreaAppend(a: seq<Row>, b: seq<Row>, v: real)
    ensures WithArea(a + b, v) == WithArea(a, v) + WithArea(b, v)
  {
    if a == [] {
      assert a + b == b;
    } else {
      var head := if a[0].area == v then [a[0]] else [];
      assert (a + b)[0] == a[0];
      assert (a + b)[1..] == a[1..] + b;
      assert WithArea(a + b, v) == head + WithArea(a[1..] + b, v);
      WithAreaAppend(a[1..], b, v);
      assert WithArea(a, v) == head + WithArea(a[1..], v);
    }
  }

  /** Insert places x somewhere in s and leaves the rest in order. */
  lemma {:induction false} InsertSplits(s: seq<Row>, x: Row) returns (k: nat)
    ensures k <= |s| && Insert(s, x) == s[..k] + [x] + s[k..]
  {
    if s == [] || s[|s| - 1].area >= x.area {
      k := |s|;
    } else {
      var init, last := s[..|s| - 1], s[|s| - 1];
      k := InsertSplits(init, x);
      assert s == init + [last];
      assert init[..k] == s[..k];
      assert s[k..] == init[k..] + [last];
    }
  }

  lemma {:induction false} InsertKeepsOrder(s: seq<Row>, x: Row)
    requires NonIncreasing(s)
    ensures NonIncreasing(Insert(s, x))
  {
    if s == [] || s[|s| - 1].area >= x.area {
    } else {
      var init, last := s[..|s| - 1], s[|s| - 1];
      InsertKeepsOrder(init, x);
      var k := InsertSplits(init, x);
      var r := Insert(init, x);
      assert forall i :: 0 <= i < |r| ==> r[i].area >= last.area by {
        forall i | 0 <= i < |r| ensures r[i].area >= last.area {
          assert r == init[..k] + [x] + init[k..];
          if i < k {
            assert r[i] == init[i] == s[i];
          } else if i > k {
            assert r[i] == init[i - 1] == s[i - 1];
          }
        }
      }
    }
  }

  lemma {:induction false} InsertStable(s: seq<Row>, x: Row, v: real)
    ensures WithArea(Insert(s, x), v) == WithArea(s, v) + WithArea([x], v)
  {
    if s == [] || s[|s| - 1].area >= x.area {
      WithAreaAppend(s, [x], v);
    } else {
      var init, last := s[..|s| - 1], s[|s| - 1];
      assert s == init + [last];
      InsertStable(init, x, v);
      WithAreaAppend(Insert(init, x), [last], v);
      WithAreaAppend(init, [last], v);
      assert WithArea([x], v) == [] || WithArea([last], v) == [];
    }
  }

  /** The sorted list is a permutation of its input. */
  lemma {:induction false} SortPermutes(s: seq<Row>)
    ensures multiset(SortByArea(s)) == multiset(s)
  {
    if s != [] {
      var init, last := s[..|s| - 1], s[|s| - 1];
      assert s == init + [last];
      SortPermutes(init);
      var sorted := SortByArea(init);
      var k := InsertSplits(sorted, last);
      assert sorted == sorted[..k] + sorted[k..];
    }
  }

  /** The sorted list holds the same units as its input, as often. */
  lemma {:induction false} SortPermutesUnits(s: seq<Row>)
    ensures multiset(UnitsOf(SortByArea(s))) == multiset(UnitsOf(s))
  {
    if s != [] {
      var init, last := s[..|s| - 1], s[|s| - 1];
      assert s == init + [last];
      UnitsOfAppend(init, [last]);
      SortPermutesUnits(init);
      var sorted := SortByArea(init);
      var k := InsertSplits(sorted, last);
      assert sorted == sorted[..k] + sorted[k..];
      UnitsOfAppend(sorted[..k] + [last], sorted[k..]);
      UnitsOfAppend(sorted[..k], [last]);
      UnitsOfAppend(sorted[..k], sorted[k..]);
    }
  }

  /** The sorted list is in non-increasing order of area. */
  lemma {:induction false} SortOrders(s: seq<Row>)
    ensures NonIncreasing(SortByArea(s))
  {
    if s != [] {
      SortOrders(s[..|s| - 1]);
      InsertKeepsOrder(SortByArea(s[..|s| - 1]), s[|s| - 1]);
    }
  }

  /** The sort is stable: rows of equal area keep their relative order. */
  lemma {:induction false} SortStable(s: seq<Row>, v: real)
    ensures WithArea(SortByArea(s), v) == WithArea(s, v)
  {
    if s != [] {
      var init, last := s[..|s| - 1], s[|s| - 1];
      assert s == init + [last];
      SortStable(init, v);
      InsertStable(SortByArea(init), last, v);
      WithAreaAppend(init, [last], v);
    }
  }

  /** An already ordered list is left as it is. */
  lemma {:induction false} SortOfOrdered(s: seq<Row>)
    requires NonIncreasing(s)
    ensures SortByArea(s) == s
  {
    if s != [] {
      var init := s[..|s| - 1];
      assert NonIncreasing(init);
      SortOfOrdered(init);
      assert s == init + [s[|s| - 1]];
    }
  }

  lemma WithAreaHead(s: seq<Row>)
    requires s != []
    ensures WithArea(s, s[0].area) != []
  {
  }

  lemma WithAreaMembers(s: seq<Row>, v: real)
    ensures forall x :: x in WithArea(s, v) ==> x in s && x.area == v
  {
    if s != [] {
      WithAreaMembers(s[1..], v);
    }
  }

  /** A non-increasing list that has the same rows of each area as t, in the
      same order, is t itself. So every stable sort by area descending returns
      what SortByArea returns, whichever algorithm it uses. */
  lemma {:induction false} StableOrderUnique(a: seq<Row>, b: seq<Row>)
    requires NonIncreasing(a) && NonIncreasing(b)
    requires forall v :: WithArea(a, v) == WithArea(b, v)
    ensures a == b
  {
    if a == [] && b == [] {
    } else if a == [] || b == [] {
      var c := if a == [] then b else a;
      WithAreaHead(c);
      assert false;
    } else {
      var m := a[0].area;
      assert a[0] in WithArea(a, m);
      WithAreaMembers(b, m);
      assert a[0] in b;
      var mb := b[0].area;
      assert b[0] in WithArea(b, mb);
      WithAreaMembers(a, mb);
      assert b[0] in a;
      assert m == mb;
      assert WithArea(a, m)[0] == a[0];
      assert WithArea(b, m)[0] == b[0];
      assert a[0] == b[0];
      forall v ensures WithArea(a[1..], v) == WithArea(b[1..], v) {
        var head := if a[0].area == v then [a[0]] else [];
        assert WithArea(a, v) == head + WithArea(a[1..], v);
        assert WithArea(b, v) == head + WithArea(b[1..], v);
        assert (head + WithArea(a[1..], v))[|head|..] == WithArea(a[1..], v);
        assert (head + WithArea(b[1..], v))[|head|..] == WithArea(b[1..], v);
      }
      StableOrderUnique(a[1..], b[1..]);
      assert a == [a[0]] + a[1..] && b == [b[0]] + b[1..];
    }
  }

  /** x goes after the rows of area at least x's and before the rows of
      smaller area that end the list. */
  lemma {:induction false} InsertAt(sorted: seq<Row>, j: nat, x: Row)
    requires j <= |sorted| && (j == 0 || sorted[j - 1].area >= x.area)
    requires forall k :: j <= k < |sorted| ==> sorted[k].area < x.area
    ensures Insert(sorted, x) == sorted[..j] + [x] + sorted[j..]
  {
    if j < |sorted| {
      var init, last := sorted[..|sorted| - 1], sorted[|sorted| - 1];
      InsertAt(init, j, x);
      assert init[..j] == sorted[..j];
      assert init[j..] + [last] == sorted[j..];
    }
  }

  lemma Reassemble(b: seq<Row>, sorted: seq<Row>, j: nat, x: Row)
    requires |b| == |sorted| + 1 && j <= |sorted| && b[j] == x
    requires forall k :: 0 <= k < j ==> b[k] == sorted[k]
    requires forall k :: j < k < |b| ==> b[k] == sorted[k - 1]
    ensures b == sorted[..j] + [x] + sorted[j..]
  {
  }

  lemma SortSnoc(s: seq<Row>, i: nat)
    requires i < |s|
    ensures SortByArea(s[..i + 1]) == Insert(SortByArea(s[..i]), s[i])
  {
    assert s[..i + 1][..i] == s[..i];
  }

  /** Shifts the rows of the sorted prefix a[..i] whose area is smaller than
      x's one place to the right and returns the slot left free for x. */
  method MakeRoom(a: array<Row>, i: nat, x: Row) returns (j: nat)
    requires i < a.Length
    modifies a
    ensures j <= i
    ensures forall k :: 0 <= k < j ==> a[k] == old(a[k])
    ensures forall k :: j < k <= i ==> a[k] == old(a[k - 1])
    ensures forall k :: i < k < a.Length ==> a[k] == old(a[k])
    ensures Insert(old(a[..i]), x) == old(a[..i])[..j] + [x] + old(a[..i])[j..]
  {
    ghost var sorted := a[..i];
    j := i;
    while j > 0 && a[j - 1].area < x.area
      invariant 0 <= j <= i
      invariant forall k :: 0 <= k < j ==> a[k] == sorted[k]
      invariant forall k :: j < k <= i ==> a[k] == sorted[k - 1]
      invariant forall k :: i < k < a.Length ==> a[k] == old(a[k])
      invariant forall k :: j <= k < i ==> sorted[k].area < x.area
    {
      a[j] := a[j - 1];
      j := j - 1;
    }
    InsertAt(sorted, j, x);
  }

  /** Moves a[i] left past the rows of smaller area in the sorted prefix
      a[..i]: one pass of the insertion sort. */
  method InsertInPlace(a: array<Row>, i: nat)
    requires i < a.Length
    modifies a
    ensures a[..i + 1] == Insert(old(a[..i]), old(a[i]))
    ensures forall k :: i < k < a.Length ==> a[k] == old(a[k])
  {
    var x := a[i];
    ghost var sorted := a[..i];
    var j := MakeRoom(a, i, x);
    a[j] := x;
    Reassemble(a[..i + 1], sorted, j, x);
  }

  /** Sorts the array in place, the way calculatedResults.sort does: afterwards
      it holds the stable descending sort of what it held before. */
  method SortInPlace(a: array<Row>)
    modifies a
    ensures a[..] == SortByArea(old(a[..]))
  {
    ghost var orig := a[..];
    var i := 0;
    while i < a.Length
      invariant 0 <= i <= a.Length
      invariant a[..i] == SortByArea(orig[..i])
      invariant forall k :: i <= k < a.Length ==> a[k] == orig[k]
    {
      InsertInPlace(a, i);
      SortSnoc(orig, i);
      i := i + 1;
    }
    assert orig[..a.Length] == orig;
  }
}
