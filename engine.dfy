/** The conversion and pricing engine (calculateResults): from an entered area,
    its unit and an optional price, one row per unit of the table with the
    converted area and the price per unit, sorted by area, largest first.

    calculateResults reads the conversion factors from its enclosing scope;
    here they are the parameter `factors`, so that the laws below hold for any
    table of positive factors. Calculate fixes them to the calculator's own. */
module Engine {
  import opened Wrappers
  import opened Conversion
  import opened Results

  /** The inputs of a recomputation. `area` and `price` are the parsed fields:
      None for an empty field or one that parseFloat turns into NaN. */
  datatype Input = Input(area: Option<real>, unit: Unit, price: Option<real>, isTotalPrice: bool)

  /** Every unit measures a positive number of square feet. */
  predicate Positive(factors: Unit -> real)
  {
    forall u :: factors(u) > 0.0
  }

  /** The price used in the computation: an empty field counts as 0, and a NaN
      price, being falsy like 0, is treated the same way. */
  function PriceValue(input: Input): real
  {
    match input.price
    case None => 0.0
    case Some(p) => p
  }

  /** The price of one square foot, or None when a total price is spread over a
      zero area (a division by zero, which JavaScript turns into an infinity). */
  function PricePerSqFt(factors: Unit -> real, areaValue: real, input: Input): Option<real>
    requires Positive(factors)
  {
    var areaInSqFt := areaValue * factors(input.unit);
    if input.isTotalPrice then
      if areaInSqFt == 0.0 then None else Some(PriceValue(input) / areaInSqFt)
    else
      Some(PriceValue(input) / factors(input.unit))
  }

  /** An area given in unit `from`, expressed in unit `to` (through square feet). */
  function ConvertArea(factors: Unit -> real, areaValue: real, from: Unit, to: Unit): real
    requires Positive(factors)
  {
    (areaValue * factors(from)) / factors(to)
  }

  /** The price cell of unit u: empty without a price, otherwise the price of a
      square foot scaled up to one u. */
  function RowPrice(factors: Unit -> real, areaValue: real, input: Input, u: Unit): PriceCell
    requires Positive(factors)
  {
    if PriceValue(input) == 0.0 then Null
    else match PricePerSqFt(factors, areaValue, input)
      case None => NotFinite
      case Some(perSqFt) => Amount(perSqFt * factors(u))
  }

  /** The row of unit u for an entered area. */
  function MakeRow(factors: Unit -> real, areaValue: real, input: Input, u: Unit): Row
    requires Positive(factors)
  {
    Row(u, Name(u), ConvertArea(factors, areaValue, input.unit, u), RowPrice(factors, areaValue, input, u),
        u == input.unit)
  }

  /** The rows of the given units, in their order (the map over the keys of
      the table). */
  function RowsFor(factors: Unit -> real, areaValue: real, input: Input, us: seq<Unit>): (r: seq<Row>)
    requires Positive(factors)
    ensures |r| == |us|
  {
    if us == [] then []
    else [MakeRow(factors, areaValue, input, us[0])] + RowsFor(factors, areaValue, input, us[1..])
  }

  lemma {:induction false} RowsForAt(factors: Unit -> real, areaValue: real, input: Input, us: seq<Unit>, k: nat)
    requires Positive(factors) && k < |us|
    ensures RowsFor(factors, areaValue, input, us)[k] == MakeRow(factors, areaValue, input, us[k])
  {
    if k > 0 {
      RowsForAt(factors, areaValue, input, us[1..], k - 1);
    }
  }

  /** The rows in table order, before sorting. */
  function TableRows(factors: Unit -> real, areaValue: real, input: Input): (r: seq<Row>)
    requires Positive(factors)
    ensures |r| == |Units|
  {
    RowsFor(factors, areaValue, input, Units)
  }

  /** The result list for an input: empty for an empty or non-numeric area,
      otherwise the table's rows sorted by area. */
  function CalculateWith(factors: Unit -> real, input: Input): seq<Row>
    requires Positive(factors)
  {
    match input.area
    case None => []
    case Some(a) => SortByArea(TableRows(factors, a, input))
  }

  /** The calculator's own factors are positive. */
  lemma FactorsPositive()
    ensures Positive(Factor)
  {
    forall u ensures Factor(u) > 0.0 {
    }
  }

  /** The result list of calculateResults, with the calculator's table. */
  function Calculate(input: Input): seq<Row>
  {
    FactorsPositive();
    CalculateWith(Factor, input)
  }

  /** calculateResults: clears the list for an empty or non-numeric area;
      otherwise builds the rows in table order into an array and sorts that
      array in place. */
  method CalculateResults(input: Input) returns (results: seq<Row>)
    ensures results == Calculate(input)
  {
    if input.area.None? {
      return [];
    }
    FactorsPositive();
    var rows := TableRows(Factor, input.area.value, input);
    var a := new Row[|rows|](k requires 0 <= k < |rows| => rows[k]);
    assert a[..] == rows;
    SortInPlace(a);
    results := a[..];
  }

  /** Every row of the result is the row its unit gets in the table. */
  lemma RowOfResult(factors: Unit -> real, input: Input, i: nat)
    requires Positive(factors) && input.area.Some? && i < |CalculateWith(factors, input)|
    ensures CalculateWith(factors, input)[i] ==
      MakeRow(factors, input.area.value, input, CalculateWith(factors, input)[i].unit)
  {
    var rows := TableRows(factors, input.area.value, input);
    SortPermutes(rows);
    var r := CalculateWith(factors, input)[i];
    assert r in multiset(rows);
    var k :| 0 <= k < |rows| && rows[k] == r;
    RowsForAt(factors, input.area.value, input, Units, k);
  }

  /** An empty or non-numeric area gives no rows at all; a numeric one gives a
      row for each unit of the table. */
  lemma {:induction false} EmptyInput(factors: Unit -> real, input: Input)
    requires Positive(factors)
    ensures CalculateWith(factors, input) == [] <==> input.area.None?
    ensures input.area.Some? ==> |CalculateWith(factors, input)| == |Units|
  {
    if input.area.Some? {
      var rows := TableRows(factors, input.area.value, input);
      SortPermutes(rows);
      assert |multiset(CalculateWith(factors, input))| == |multiset(rows)|;
    }
  }

  /** Each unit has exactly one row, labelled with its display name, and the
      isOriginal flag marks exactly the row of the entered unit, even where two
      units share a factor. */
  lemma OneRowPerUnit(factors: Unit -> real, input: Input)
    requires Positive(factors) && input.area.Some?
    ensures var r := CalculateWith(factors, input);
      && (forall u :: multiset(UnitsOf(r))[u] == 1)
      && (forall i :: 0 <= i < |r| ==> r[i].unitName == Name(r[i].unit))
      && (forall i :: 0 <= i < |r| ==> (r[i].isOriginal <==> r[i].unit == input.unit))
  {
    var r := CalculateWith(factors, input);
    var rows := TableRows(factors, input.area.value, input);
    SortPermutesUnits(rows);
    forall k | 0 <= k < |rows| ensures UnitsOf(rows)[k] == Units[k] {
      RowsForAt(factors, input.area.value, input, Units, k);
    }
    assert UnitsOf(rows) == Units;
    forall u ensures multiset(UnitsOf(r))[u] == 1 {
      UnitsOnce(u);
    }
    forall i | 0 <= i < |r|
      ensures r[i].unitName == Name(r[i].unit) && (r[i].isOriginal <==> r[i].unit == input.unit)
    {
      RowOfResult(factors, input, i);
    }
  }

  lemma CountTwo<T>(s: seq<T>, i: nat, j: nat)
    requires i < j < |s| && s[i] == s[j]
    ensures multiset(s)[s[i]] >= 2
  {
    assert s == s[..j] + s[j..];
    assert s[i] in multiset(s[..j]);
    assert s[j] in multiset(s[j..]);
  }

  /** There is exactly one row with isOriginal set. */
  lemma OneOriginalRow(factors: Unit -> real, input: Input)
    requires Positive(factors) && input.area.Some?
    ensures exists i :: 0 <= i < |CalculateWith(factors, input)| && CalculateWith(factors, input)[i].isOriginal
    ensures forall i, j ::
      (0 <= i < |CalculateWith(factors, input)| && 0 <= j < |CalculateWith(factors, input)| &&
       CalculateWith(factors, input)[i].isOriginal && CalculateWith(factors, input)[j].isOriginal) ==> i == j
  {
    var r := CalculateWith(factors, input);
    OneRowPerUnit(factors, input);
    var us := UnitsOf(r);
    assert input.unit in multiset(us);
    var i :| 0 <= i < |us| && us[i] == input.unit;
    assert r[i].isOriginal;
    forall i, j | 0 <= i < |r| && 0 <= j < |r| && r[i].isOriginal && r[j].isOriginal
      ensures i == j
    {
      if i < j {
        CountTwo(us, i, j);
      } else if j < i {
        CountTwo(us, j, i);
      }
    }
  }

  /** Every row's area follows the conversion formula. */
  predicate AreasOf(factors: Unit -> real, a: real, from: Unit, r: seq<Row>)
    requires Positive(factors)
  {
    forall i :: 0 <= i < |r| ==> r[i].area == ConvertArea(factors, a, from, r[i].unit)
  }

  /** Every row's price cell follows the price formula. */
  predicate PricesOf(factors: Unit -> real, a: real, input: Input, r: seq<Row>)
    requires Positive(factors)
  {
    forall i :: 0 <= i < |r| ==> r[i].pricePerUnit == RowPrice(factors, a, input, r[i].unit)
  }

  lemma ResultFormulas(factors: Unit -> real, input: Input)
    requires Positive(factors) && input.area.Some?
    ensures AreasOf(factors, input.area.value, input.unit, CalculateWith(factors, input))
    ensures PricesOf(factors, input.area.value, input, CalculateWith(factors, input))
  {
    var r := CalculateWith(factors, input);
    forall i | 0 <= i < |r|
      ensures r[i].area == ConvertArea(factors, input.area.value, input.unit, r[i].unit)
      ensures r[i].pricePerUnit == RowPrice(factors, input.area.value, input, r[i].unit)
    {
      RowOfResult(factors, input, i);
    }
  }

  // Facts about real division used below.

  lemma DivMul(x: real, f: real)
    requires f != 0.0
    ensures x / f * f == x
  {
  }

  lemma ScaleCancel(v: real, p: real, f: real)
    requires f != 0.0 && v * f == p * f
    ensures v == p
  {
    DivMul(v, f);
    DivMul(p, f);
    assert v * f / f == p * f / f;
  }

  lemma PriceTimesArea(p: real, base: real, f: real)
    requires base != 0.0 && f != 0.0
    ensures (p / base * f) * (base / f) == p
  {
    calc {
      (p / base * f) * (base / f);
      (p / base) * (f * (base / f));
      { DivMul(base, f); }
      (p / base) * base;
      { DivMul(p, base); }
      p;
    }
  }

  lemma LargerFactorSmallerArea(c: real, f: real, g: real)
    requires f > 0.0 && g > 0.0 && c / f >= c / g
    ensures c > 0.0 ==> f <= g
    ensures c < 0.0 ==> f >= g
  {
    DivMul(c, f);
    DivMul(c, g);
  }

  // Whole lists whose rows follow the formulas.

  /** Converting a row's area back to square feet gives the entered area in
      square feet; the row of the entered unit shows the entered area. */
  lemma AreasLaw(factors: Unit -> real, a: real, from: Unit, r: seq<Row>)
    requires Positive(factors) && AreasOf(factors, a, from, r)
    ensures forall i :: 0 <= i < |r| ==>
      && r[i].area * factors(r[i].unit) == a * factors(from)
      && (r[i].unit == from ==> r[i].area == a)
  {
    forall i | 0 <= i < |r|
      ensures r[i].area * factors(r[i].unit) == a * factors(from)
      ensures r[i].unit == from ==> r[i].area == a
    {
      DivMul(a * factors(from), factors(r[i].unit));
      if r[i].unit == from {
        ScaleCancel(r[i].area, a, factors(from));
      }
    }
  }

  /** A total price over a nonzero area: price per unit times area is the
      total price in every row. */
  lemma TotalPricesLaw(factors: Unit -> real, a: real, input: Input, r: seq<Row>)
    requires Positive(factors) && input.isTotalPrice && a != 0.0 && PriceValue(input) != 0.0
    requires AreasOf(factors, a, input.unit, r) && PricesOf(factors, a, input, r)
    ensures forall i :: 0 <= i < |r| ==>
      r[i].pricePerUnit.Amount? && r[i].pricePerUnit.value * r[i].area == PriceValue(input)
  {
    var base := a * factors(input.unit);
    assert base != 0.0;
    forall i | 0 <= i < |r|
      ensures r[i].pricePerUnit.Amount? && r[i].pricePerUnit.value * r[i].area == PriceValue(input)
    {
      PriceTimesArea(PriceValue(input), base, factors(r[i].unit));
    }
  }

  /** A price per unit of the entered unit: every row's price is scaled by the
      ratio of the factors, and the entered unit's row shows the entered price. */
  lemma PerUnitPricesLaw(factors: Unit -> real, a: real, input: Input, r: seq<Row>)
    requires Positive(factors) && !input.isTotalPrice && PriceValue(input) != 0.0
    requires PricesOf(factors, a, input, r)
    ensures forall i :: 0 <= i < |r| ==>
      && r[i].pricePerUnit.Amount?
      && r[i].pricePerUnit.value * factors(input.unit) == PriceValue(input) * factors(r[i].unit)
      && (r[i].unit == input.unit ==> r[i].pricePerUnit.value == PriceValue(input))
  {
    var p, fs := PriceValue(input), factors(input.unit);
    forall i | 0 <= i < |r|
      ensures r[i].pricePerUnit.Amount?
      ensures r[i].pricePerUnit.value * fs == p * factors(r[i].unit)
      ensures r[i].unit == input.unit ==> r[i].pricePerUnit.value == p
    {
      var fu := factors(r[i].unit);
      DivMul(p, fs);
      assert (p / fs * fu) * fs == (p / fs * fs) * fu;
      if r[i].unit == input.unit {
        ScaleCancel(r[i].pricePerUnit.value, p, fs);
      }
    }
  }

  /** Rows sorted by area come in order of their factors: ascending for a
      positive area, descending for a negative one. */
  lemma FactorsLaw(factors: Unit -> real, a: real, from: Unit, r: seq<Row>)
    requires Positive(factors) && AreasOf(factors, a, from, r) && NonIncreasing(r)
    ensures forall i, j :: 0 <= i < j < |r| ==>
      && (a > 0.0 ==> factors(r[i].unit) <= factors(r[j].unit))
      && (a < 0.0 ==> factors(r[i].unit) >= factors(r[j].unit))
  {
    var c := a * factors(from);
    assert a > 0.0 ==> c > 0.0;
    assert a < 0.0 ==> c < 0.0;
    forall i, j | 0 <= i < j < |r|
      ensures a > 0.0 ==> factors(r[i].unit) <= factors(r[j].unit)
      ensures a < 0.0 ==> factors(r[i].unit) >= factors(r[j].unit)
    {
      assert r[i].area == c / factors(r[i].unit) >= c / factors(r[j].unit) == r[j].area;
      LargerFactorSmallerArea(c, factors(r[i].unit), factors(r[j].unit));
    }
  }

  // The laws of the result list.

  /** Converting a row's area back to square feet gives the entered area in
      square feet; in particular the row of the entered unit shows the entered
      area. */
  lemma AreaRoundTrip(factors: Unit -> real, input: Input)
    requires Positive(factors) && input.area.Some?
    ensures var r := CalculateWith(factors, input);
      forall i :: 0 <= i < |r| ==>
        && r[i].area * factors(r[i].unit) == input.area.value * factors(input.unit)
        && (r[i].isOriginal ==> r[i].area == input.area.value)
  {
    ResultFormulas(factors, input);
    AreasLaw(factors, input.area.value, input.unit, CalculateWith(factors, input));
    OneRowPerUnit(factors, input);
  }

  /** No price (an empty, zero or non-numeric price field) leaves every price
      cell empty. */
  lemma NoPrice(factors: Unit -> real, input: Input)
    requires Positive(factors) && PriceValue(input) == 0.0
    ensures forall i :: 0 <= i < |CalculateWith(factors, input)| ==>
      CalculateWith(factors, input)[i].pricePerUnit == Null
  {
    if input.area.Some? {
      ResultFormulas(factors, input);
    }
  }

  /** A total price over a nonzero area: the price per unit times the area in
      that unit is the total price, in every row. */
  lemma TotalPriceLaw(factors: Unit -> real, input: Input)
    requires Positive(factors) && input.isTotalPrice && input.area.Some? && input.area.value != 0.0
    requires PriceValue(input) != 0.0
    ensures var r := CalculateWith(factors, input);
      forall i :: 0 <= i < |r| ==>
        r[i].pricePerUnit.Amount? && r[i].pricePerUnit.value * r[i].area == PriceValue(input)
  {
    ResultFormulas(factors, input);
    TotalPricesLaw(factors, input.area.value, input, CalculateWith(factors, input));
  }

  /** A total price over a zero area divides by zero: no row has a finite
      price. */
  lemma TotalPriceZeroArea(factors: Unit -> real, input: Input)
    requires Positive(factors) && input.isTotalPrice && input.area == Some(0.0) && PriceValue(input) != 0.0
    ensures forall i :: 0 <= i < |CalculateWith(factors, input)| ==>
      CalculateWith(factors, input)[i].pricePerUnit == NotFinite
  {
    ResultFormulas(factors, input);
  }

  /** A price per unit of the entered unit: every row's price is scaled by the
      ratio of the factors, so the entered unit's row shows the entered price. */
  lemma PerUnitPriceLaw(factors: Unit -> real, input: Input)
    requires Positive(factors) && !input.isTotalPrice && input.area.Some? && PriceValue(input) != 0.0
    ensures var r := CalculateWith(factors, input);
      forall i :: 0 <= i < |r| ==>
        && r[i].pricePerUnit.Amount?
        && r[i].pricePerUnit.value * factors(input.unit) == PriceValue(input) * factors(r[i].unit)
        && (r[i].isOriginal ==> r[i].pricePerUnit.value == PriceValue(input))
  {
    var r := CalculateWith(factors, input);
    ResultFormulas(factors, input);
    PerUnitPricesLaw(factors, input.area.value, input, r);
    OneRowPerUnit(factors, input);
    forall i | 0 <= i < |r| && r[i].isOriginal ensures r[i].pricePerUnit.value == PriceValue(input) {
    }
  }

  /** The list is ordered by area, largest first, and units of equal area keep
      the order of the table. */
  lemma SortedResult(factors: Unit -> real, input: Input)
    requires Positive(factors) && input.area.Some?
    ensures NonIncreasing(CalculateWith(factors, input))
    ensures forall v ::
      WithArea(CalculateWith(factors, input), v) == WithArea(TableRows(factors, input.area.value, input), v)
  {
    var rows := TableRows(factors, input.area.value, input);
    SortOrders(rows);
    forall v ensures WithArea(CalculateWith(factors, input), v) == WithArea(rows, v) {
      SortStable(rows, v);
    }
  }

  /** For a positive area the list runs from the smallest unit to the largest;
      for a negative area from the largest to the smallest; for a zero area
      every row has area 0 and the table order is kept as it is. */
  lemma FactorOrder(factors: Unit -> real, input: Input)
    requires Positive(factors) && input.area.Some?
    ensures var r := CalculateWith(factors, input);
      forall i, j :: 0 <= i < j < |r| ==>
        && (input.area.value > 0.0 ==> factors(r[i].unit) <= factors(r[j].unit))
        && (input.area.value < 0.0 ==> factors(r[i].unit) >= factors(r[j].unit))
    ensures input.area == Some(0.0) ==> CalculateWith(factors, input) == TableRows(factors, 0.0, input)
  {
    SortedResult(factors, input);
    ResultFormulas(factors, input);
    FactorsLaw(factors, input.area.value, input.unit, CalculateWith(factors, input));
    if input.area.value == 0.0 {
      var rows := TableRows(factors, 0.0, input);
      forall k | 0 <= k < |rows| ensures rows[k].area == 0.0 {
        RowsForAt(factors, 0.0, input, Units, k);
      }
      assert NonIncreasing(rows);
      SortOfOrdered(rows);
    }
  }
}
