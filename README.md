# Land area calculator: a verified model of its core

The land area calculator is a React component. The user enters an area, picks
one of fourteen units of land area (square feet, square yards, square metres,
and regional units such as vaar, guntha, bigha, cent and kanal) and may enter
a price. The price is either the total price of the plot or the price of one
unit. The component then lists the area in every unit, each with its price
per unit, largest area first. Numbers are shown with Indian grouping
(12,34,567 and the suffixes Cr, L, K) or international grouping (1,234,567 and
B, M, K), rounded to a chosen number of decimals.

This project models the non-visual core of the component, all of it in
`src/land-area-calculator.tsx`:

- `Conversion` (`conversion.dfy`) holds the table of units. For each unit it
  gives the key, the display name and the number of square feet.
- `Results` (`results.dfy`) holds the rows of the result list. It defines the
  stable sort by area, largest first, as a function. `Results.SortInPlace` is an
  insertion sort on an array, proved equal to that function.
- `Engine` (`engine.dfy`) models calculateResults. The conversion factors are
  a parameter, so every law holds for any table of positive factors.
  `Engine.Calculate` fixes them to the calculator's own table.
  `Engine.CalculateResults` builds the rows into an array and sorts that array
  in place, as the source does.
- `Digits` (`digits.dfy`) covers the digit strings that toFixed writes and the
  numbers they denote.
- `Grouping` (`grouping.dfy`) models the two global regular-expression
  replacements:
  - `\B(?=(\d{k})+(?!\d))` → `,` is modelled position by position, on any
    string. For digit strings it is proved to be the right-to-left grouping.
  - `,` → `` deletes every comma.
- `Formatting` (`formatting.dfy`) models formatWithCommas, formatInputNumber and
  parseInputNumber.
- `NumberFormat` (`numberformat.dfy`) models formatNumber. This covers the
  threshold tests, the suffixes and Number.prototype.toFixed over exact reals.
- `Wrappers` (`wrappers.dfy`) holds the `Option` type.

Every result of parseFloat is an `Option<real>`. `None` stands for an empty
field or NaN. The JavaScript functions that cannot be written exactly are
parameters of the model:

- parseFloat of a typed string (`parse`);
- Number.prototype.toExponential(3) (`expo`);
- Number.prototype.toString (`show`).

## Model

| member | source | states |
|---|---|---|
| Conversion.Key | src/land-area-calculator.tsx:15-30 | definition: the table's keys, one per unit; KeyInjective shows they are distinct |
| Conversion.Name | src/land-area-calculator.tsx:32-47 | definition: the unitNames labels; OneRowPerUnit shows every row carries its unit's label |
| Engine.PricePerSqFt | src/land-area-calculator.tsx:56-68 | definition: the price of one square foot in either price mode, none for a total price over a zero area; TotalPriceLaw, TotalPriceZeroArea and PerUnitPriceLaw describe it |
| Engine.RowPrice | src/land-area-calculator.tsx:72-78 | definition: a row's price cell: null without a price, else the square-foot price times the unit's factor; NoPrice and the price laws describe it |
| Engine.MakeRow | src/land-area-calculator.tsx:70-81 | definition: the row the map builds for one unit; RowOfResult, ResultFormulas and AreaRoundTrip describe it |
| Engine.CalculateWith | src/land-area-calculator.tsx:49-86 | definition: calculateResults for any table of positive factors: empty for a missing area, else the rows sorted by area; EmptyInput, OneRowPerUnit, SortedResult and FactorOrder describe it |
| Engine.Calculate | src/land-area-calculator.tsx:49-86 | definition: calculateResults with the calculator's own table; CalculateResults is proved equal to it |
| Results.SortByArea | src/land-area-calculator.tsx:84 | definition: the stable sort by area, largest first; SortPermutes, SortOrders, SortStable and StableOrderUnique describe it |
| Grouping.InsertSeparators | src/land-area-calculator.tsx:143-148 | definition: the replacement \B(?=(\d{k})+(?!\d)) → ','; GroupsAheadMeaning, InsertSeparatorsGroups and RemoveInserted describe it |
| Formatting.FormattedInteger | src/land-area-calculator.tsx:135-149 | definition: the integer part with its separators in either system; IndianGrouping and InternationalGrouping describe it |
| Formatting.CleanDecimal | src/land-area-calculator.tsx:152 | definition: the replacement \.?0+$ → ''; CleanDecimalShape describes it |
| Formatting.FormatWithCommas | src/land-area-calculator.tsx:130-154 | definition: formatWithCommas: grouped integer part, then cleaned decimal part; CommasRemoved, CommasRemovedPlain, CleanedDecimalPart and the examples describe it |
| Formatting.ParseInputNumber | src/land-area-calculator.tsx:163-166 | definition: parseInputNumber; ParseIdempotent describes it |
| Formatting.FormatInputNumber | src/land-area-calculator.tsx:156-161 | definition: formatInputNumber; ParseAfterFormat and FormatAfterParse describe it |
| NumberFormat.ScaleOf | src/land-area-calculator.tsx:99-126 | definition: the threshold chain of formatNumber; LargestScale, IndianSuffixes, InternationalSuffixes and QuotientRange describe it |
| NumberFormat.ToFixed | src/land-area-calculator.tsx:102-125 | definition: toFixed(precision) of the quotient; RoundedClose, LayoutParts and FormatNumberReading describe it |
| Formatting.DecimalPartShape | src/land-area-calculator.tsx:131-133 | the decimal part taken from any string is empty, or a point followed by a nonempty piece without a point |
| Formatting.CleanedDecimalPart | src/land-area-calculator.tsx:131-152 | for every input, the cleaned decimal part is empty, or a point followed by characters whose last is not '0' |
| Conversion.Factor | src/land-area-calculator.tsx:15-30 | every conversion factor is a positive number of square feet, at least 1 |
| Conversion.UnitsOnce | src/land-area-calculator.tsx:15-30 | each of the fourteen units occurs exactly once among the table's keys |
| Conversion.KeyInjective | src/land-area-calculator.tsx:15-47 | two units have the same key exactly when they are the same unit |
| Conversion.SharedFactors | src/land-area-calculator.tsx:17-27 | the only distinct units with equal factors are square yards and vaar, and cent and dismil |
| Conversion.Position | src/land-area-calculator.tsx:15-30 | each unit's place in the key order holds that unit |
| Engine.CalculateResults | src/land-area-calculator.tsx:49-86 | the method that fills an array and sorts it in place returns exactly the result list of Engine.Calculate |
| Engine.EmptyInput | src/land-area-calculator.tsx:50-53 | the list is empty exactly when the area field is empty or not a number; otherwise it has one row per unit |
| Engine.OneRowPerUnit | src/land-area-calculator.tsx:70-81 | every unit appears exactly once, under its display name, and isOriginal holds exactly for the entered unit |
| Engine.OneOriginalRow | src/land-area-calculator.tsx:79 | exactly one row has isOriginal set |
| Engine.RowOfResult | src/land-area-calculator.tsx:70-81 | every row of the sorted list is the row its unit gets from the map step |
| Engine.ResultFormulas | src/land-area-calculator.tsx:57-78 | every row's area and price cell follow the conversion and price formulas for its unit |
| Engine.AreaRoundTrip | src/land-area-calculator.tsx:57-71 | each row's area times its factor is the entered area in square feet; the original row shows the entered area |
| Engine.NoPrice | src/land-area-calculator.tsx:56-78 | an empty, zero or non-numeric price leaves every price cell null |
| Engine.TotalPriceLaw | src/land-area-calculator.tsx:61-72 | with a total price and a nonzero area, price per unit times area is the total price in every row |
| Engine.TotalPriceZeroArea | src/land-area-calculator.tsx:61-64 | a total price over a zero area makes every price cell non-finite |
| Engine.PerUnitPriceLaw | src/land-area-calculator.tsx:65-72 | with a price per unit, each row's price is the entered price scaled by the ratio of factors, and the original row shows the entered price |
| Engine.SortedResult | src/land-area-calculator.tsx:84 | the list is non-increasing in area, and rows of equal area keep the table's order |
| Engine.FactorOrder | src/land-area-calculator.tsx:70-84 | a positive area lists units by ascending factor and a negative one by descending factor; a zero area keeps the table order |
| Results.SortInPlace | src/land-area-calculator.tsx:84 | the in-place insertion sort leaves the array holding the stable descending sort of its old contents |
| Results.InsertInPlace | src/land-area-calculator.tsx:84 | one insertion pass puts the new row into the sorted prefix as the sort function does and leaves the rest alone |
| Results.SortPermutes | src/land-area-calculator.tsx:84 | the sort is a permutation of its input |
| Results.SortOrders | src/land-area-calculator.tsx:84 | the sort's output is non-increasing in area |
| Results.SortStable | src/land-area-calculator.tsx:84 | the sort keeps the order of the rows of each area |
| Results.SortOfOrdered | src/land-area-calculator.tsx:84 | sorting a list that is already non-increasing returns it unchanged |
| Results.StableOrderUnique | src/land-area-calculator.tsx:84 | two non-increasing lists with the same rows of each area in the same order are equal, so any stable sort gives this result |
| Grouping.RemoveCommas | src/land-area-calculator.tsx:158 | the global comma replacement leaves no comma |
| Grouping.DigitRunMeaning | src/land-area-calculator.tsx:143 | the measured run is all digits and is not followed by a digit |
| Grouping.GroupsAheadMeaning | src/land-area-calculator.tsx:143 | the lookahead holds exactly when a positive multiple of k digits follows, not followed by a digit |
| Grouping.RemoveInserted | src/land-area-calculator.tsx:143-148 | deleting the commas of the grouped string gives back the string with its commas deleted |
| Grouping.InsertSeparatorsGroups | src/land-area-calculator.tsx:143-148 | on a digit string the replacement joins the right-to-left groups of k with commas |
| Grouping.GroupsShape | src/land-area-calculator.tsx:143-148 | the groups make up the string; every group after the first has k digits; the first has 1 to k |
| Formatting.Split | src/land-area-calculator.tsx:131 | split gives at least one piece, and no piece contains the separator |
| Formatting.SplitJoin | src/land-area-calculator.tsx:131-133 | joining the pieces of split with the separator gives the string back |
| Formatting.SplitFraction | src/land-area-calculator.tsx:131-133 | for digits, a point and a fraction, the parts are the digits and the point with the fraction (nothing for an empty fraction) |
| Formatting.CleanDecimalShape | src/land-area-calculator.tsx:152 | removing trailing zeros leaves a prefix that is empty or whose last character is not '0', and removes only zeros and a lone point |
| Formatting.IndianGrouping | src/land-area-calculator.tsx:137-145 | Indian grouping keeps up to three digits; longer integer parts end in a group of 3, preceded by groups of 2 and a leading group of 1 or 2 |
| Formatting.InternationalGrouping | src/land-area-calculator.tsx:146-149 | international grouping writes groups of 3 with a leading group of 1 to 3 |
| Formatting.IndianExample | src/land-area-calculator.tsx:137 | 1234567 is written 12,34,567 in the Indian system |
| Formatting.InternationalExample | src/land-area-calculator.tsx:147 | 1234567 is written 1,234,567 in the international system |
| Formatting.TrailingZeroExample | src/land-area-calculator.tsx:151-153 | "1234.50" is written 1,234.5 |
| Formatting.ZeroDecimalsExample | src/land-area-calculator.tsx:151-153 | "100.00" is written 100 |
| Formatting.NegativeIndianExample | src/land-area-calculator.tsx:138-144 | the Indian branch counts a minus sign as a character of the integer part, so "-123" is written -,123 |
| Formatting.CommasRemoved | src/land-area-calculator.tsx:130-154 | deleting the commas of formatWithCommas gives the integer part and the cleaned decimal part, each with its commas deleted |
| Formatting.CommasRemovedPlain | src/land-area-calculator.tsx:130-154 | for a string without commas, deleting the commas of the output gives the integer part followed by the cleaned decimal part |
| Formatting.ParseIdempotent | src/land-area-calculator.tsx:163-166 | parseInputNumber's output has no comma, applying it twice changes nothing, and comma-free text is kept as typed |
| Formatting.ParseAfterFormat | src/land-area-calculator.tsx:156-166 | parsing the shown text gives back the number's integer and cleaned decimal parts; non-numeric text is kept as it was |
| Formatting.FormatAfterParse | src/land-area-calculator.tsx:156-166 | for numeric text, the field shows the same whether given the typed text or the kept text |
| NumberFormat.FormatNumber | src/land-area-calculator.tsx:92-96 | a missing, NaN or zero number is written "0"; a nonzero number below 0.001, negatives included, is written in exponential notation |
| NumberFormat.LargestScale | src/land-area-calculator.tsx:99-126 | from 1000 on, the divisor is the largest of the system's scales that does not exceed the value; below 1000 there is none |
| NumberFormat.IndianSuffixes | src/land-area-calculator.tsx:99-112 | " Cr" from 10^7, " L" from 10^5, " K" from 10^3, nothing below, each exactly on its range |
| NumberFormat.InternationalSuffixes | src/land-area-calculator.tsx:113-126 | "B" from 10^9, "M" from 10^6, "K" from 10^3, nothing below, each exactly on its range |
| NumberFormat.QuotientRange | src/land-area-calculator.tsx:99-126 | the written quotient is value / power: at least 1 under a suffix; below 100 under L and Indian K; below 1000 under M, international K and no suffix; no upper bound under Cr and B |
| NumberFormat.RoundedClose | src/land-area-calculator.tsx:102 | toFixed's integer lies within half a unit of the last place of x·10^p, and is not negative for non-negative x |
| NumberFormat.LayoutParts | src/land-area-calculator.tsx:102 | toFixed writes at least one integer digit, with no leading zero unless the digits are just 0, and exactly p fraction digits, together denoting its integer |
| NumberFormat.FormatNumberReading | src/land-area-calculator.tsx:96-126 | from 0.001 on, the output is the grouped integer digits (no leading zero unless they are just 0), the fraction without trailing zeros and the suffix; together they denote the rounded quotient, and deleting commas gives the digits back |
| NumberFormat.CroreExample | src/land-area-calculator.tsx:99-103 | 12345678 with two decimals in the Indian system is written 1.23 Cr |
| NumberFormat.MillionExample | src/land-area-calculator.tsx:113-120 | 1234567 with no decimals in the international system is written 1M |
| Digits.Numeral | src/land-area-calculator.tsx:102 | the numeral is digits without leading zeros and denotes n |
| Digits.ValueAppend | src/land-area-calculator.tsx:102 | the value of a concatenation is the first part's value shifted by the second's length, plus the second's value |

## Left out

- The React rendering, the settings panel, clearAll, the effect that reruns the
  computation after every change, and index.tsx are not part of this model.
- Floating point is not modelled. Areas, prices and factors are exact reals, and
  the divisions of the source are exact divisions. So every law above is about
  the exact values, not about IEEE rounding of the engine.
- parseFloat, toExponential(3) and Number.prototype.toString are parameters.
  Their digit-by-digit behaviour is not modelled.
- An area or price typed as "Infinity" (parseFloat accepts it), or one that
  overflows to an infinity, is not modelled; `Input.area` and `Input.price`
  hold finite reals.
- Engine.RowPrice: the positive and negative infinities of a total price over a
  zero area are collapsed into one `NotFinite` cell, because the model has no
  infinities.
- NumberFormat.FormatNumber: formatNumber of a non-finite price cell is not
  modelled. The model's formatNumber takes only finite numbers or none.
- `Input.unit` is a `Unit`, because the unit selector offers only the table's
  keys. A key outside the table is not modelled.
- Negative numbers are modelled as the source handles them. toFixed writes a
  minus sign, and formatWithCommas counts it as a character of the integer part.
  formatNumber sends every negative value to exponential notation first, so
  this only concerns formatInputNumber, for example "-123" in the Indian
  system.
- NumberFormat.FormatNumberReading: states the rounded quotient as the
  integer `Rounded(q, p)`. Its closeness to q is the separate lemma
  NumberFormat.RoundedClose, not a clause of this contract.
- NumberFormat.FormatNumberReading: the quotient must be below 10^21. From
  there toFixed falls back to Number.prototype.toString, which is the `show`
  parameter.
- The precision is any natural number. The settings offer 0 to 4, and toFixed
  rejects values above 100; that range error is not modelled.
