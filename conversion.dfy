/** The fixed conversion table of the calculator: every supported unit of land
    area, its key, its display name and its size in square feet. */
module Conversion {

  datatype Unit =
    | Sqft | Sqyd | Sqm | Vaar | Guntha | Pench | Bigha
    | Acre | Hectare | Katha | Cent | Dismil | Marla | Kanal

  /** The units in the order the keys of the table are enumerated. */
  const Units: seq<Unit> :=
    [Sqft, Sqyd, Sqm, Vaar, Guntha, Pench, Bigha, Acre, Hectare, Katha, Cent, Dismil, Marla, Kanal]

  /** The key under which the unit appears in the table. */
  function Key(u: Unit): string
  {
    match u
    case Sqft => "sqft"
    case Sqyd => "sqyd"
    case Sqm => "sqm"
    case Vaar => "vaar"
    case Guntha => "guntha"
    case Pench => "pench"
    case Bigha => "bigha"
    case Acre => "acre"
    case Hectare => "hectare"
    case Katha => "katha"
    case Cent => "cent"
    case Dismil => "dismil"
    case Marla => "marla"
    case Kanal => "kanal"
  }

  /** The display name of the unit. */
  function Name(u: Unit): string
  {
    match u
    case Sqft => "Square Feet"
    case Sqyd => "Square Yards"
    case Sqm => "Square Meters"
    case Vaar => "Vaar"
    case Guntha => "Guntha"
    case Pench => "Pench"
    case Bigha => "Bigha"
    case Acre => "Acre"
    case Hectare => "Hectare"
    case Katha => "Katha"
    case Cent => "Cent"
    case Dismil => "Dismil"
    case Marla => "Marla"
    case Kanal => "Kanal"
  }

  /** Square feet in one of the unit; every factor is a positive constant. */
  function Factor(u: Unit): (f: real)
    ensures f >= 1.0
  {
    match u
    case Sqft => 1.0
    case Sqyd => 9.0
    case Sqm => 10.764
    case Vaar => 9.0
    case Guntha => 1089.0
    case Pench => 484.0
    case Bigha => 27225.0
    case Acre => 43560.0
    case Hectare => 107639.1
    case Katha => 720.0
    case Cent => 435.6
    case Dismil => 435.6
    case Marla => 272.25
    case Kanal => 5445.0
  }

  /** The place of a unit in the table. */
  function Position(u: Unit): (k: nat)
    ensures k < |Units| && Units[k] == u
  {
    match u
    case Sqft => 0
    case Sqyd => 1
    case Sqm => 2
    case Vaar => 3
    case Guntha => 4
    case Pench => 5
    case Bigha => 6
    case Acre => 7
    case Hectare => 8
    case Katha => 9
    case Cent => 10
    case Dismil => 11
    case Marla => 12
    case Kanal => 13
  }

  /** A sequence whose elements sit at distinct places holds each of them once. */
  lemma {:induction false} CountDistinct<T>(s: seq<T>, u: T, pos: T -> nat, offset: nat)
    requires forall i :: 0 <= i < |s| ==> pos(s[i]) == offset + i
    requires u in s
    ensures multiset(s)[u] == 1
  {
    assert s == [s[0]] + s[1..];
    if s[0] == u {
      assert u !in s[1..];
    } else {
      CountDistinct(s[1..], u, pos, offset + 1);
    }
  }

  /** Every unit occurs exactly once in the table. */
  lemma UnitsOnce(u: Unit)
    ensures multiset(Units)[u] == 1
  {
    forall i | 0 <= i < |Units| ensures Position(Units[i]) == i {
    }
    CountDistinct(Units, u, Position, 0);
  }

  /** Distinct units have distinct keys, so comparing keys compares units. */
  lemma KeyInjective(u: Unit, v: Unit)
    ensures Key(u) == Key(v) <==> u == v
  {
  }

  /** Units that share a factor: square yards and vaar, cent and dismil. */
  lemma SharedFactors(u: Unit, v: Unit)
    requires u != v && Factor(u) == Factor(v)
    ensures {u, v} == {Sqyd, Vaar} || {u, v} == {Cent, Dismil}
  {
  }
}
