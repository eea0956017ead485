/**
 * The unit converter: a table of conversions per category, keyed by
 * "From-To", a lookup that converts a value between two units of a
 * category, and the sorted list of the units a category knows.
 *
 * Every conversion of the table has the shape ((v + offset) · numerator) /
 * denominator + shift; a plain scaling has offset and shift 0.
 */
module UnitConverter {
  import opened Wrappers
  import opened Types

  /** A non-zero divisor, so that every conversion of the table is total. */
  type Divisor = d: real | d != 0.0 witness 1.0

  datatype Conversion = Conversion(offset: real, numerator: real, denominator: Divisor, shift: real)

  /** One property of a category's conversion object: the key "From-To" and its function. */
  datatype Entry = Entry(from: string, to: string, conversion: Conversion)

  /** The property name of an entry. */
  function Key(e: Entry): string {
    e.from + "-" + e.to
  }

  function Apply(c: Conversion, v: real): real {
    (v + c.offset) * c.numerator / c.denominator + c.shift
  }

  function Times(k: real): Conversion { Conversion(0.0, k, 1.0, 0.0) }
  function Over(k: Divisor): Conversion { Conversion(0.0, 1.0, k, 0.0) }

  // ---------------------------------------------------------------------
  // The table
  // ---------------------------------------------------------------------

  const Meters := "Meters"
  const Kilometers := "Kilometers"
  const Centimeters := "Centimeters"
  const Millimeters := "Millimeters"
  const Miles := "Miles"
  const Feet := "Feet"
  const Inches := "Inches"
  const Kilograms := "Kilograms"
  const Grams := "Grams"
  const Pounds := "Pounds"
  const Ounces := "Ounces"
  const Milligrams := "Milligrams"
  const Celsius := "Celsius"
  const Fahrenheit := "Fahrenheit"
  const Kelvin := "Kelvin"
  const Liters := "Liters"
  const Milliliters := "Milliliters"
  const Gallons := "Gallons"
  const CubicMeters := "Cubic Meters"
  const SquareMeters := "Square Meters"
  const SquareKilometers := "Square Kilometers"
  const SquareFeet := "Square Feet"
  const Acres := "Acres"
  const MetersPerSecond := "Meters per Second"
  const KilometersPerHour := "Kilometers per Hour"
  const MilesPerHour := "Miles per Hour"
  const Seconds := "Seconds"
  const Minutes := "Minutes"
  const Hours := "Hours"
  const Days := "Days"

  const Length: seq<Entry> := [
    Entry(Meters, Kilometers, Over(1000.0)),
    Entry(Kilometers, Meters, Times(1000.0)),
    Entry(Meters, Centimeters, Times(100.0)),
    Entry(Centimeters, Meters, Over(100.0)),
    Entry(Meters, Millimeters, Times(1000.0)),
    Entry(Millimeters, Meters, Over(1000.0)),
    Entry(Meters, Miles, Times(0.000621371)),
    Entry(Miles, Meters, Over(0.000621371)),
    Entry(Meters, Feet, Times(3.28084)),
    Entry(Feet, Meters, Over(3.28084)),
    Entry(Meters, Inches, Times(39.3701)),
    Entry(Inches, Meters, Over(39.3701))
  ]

  const Weight: seq<Entry> := [
    Entry(Kilograms, Grams, Times(1000.0)),
    Entry(Grams, Kilograms, Over(1000.0)),
    Entry(Kilograms, Pounds, Times(2.20462)),
    Entry(Pounds, Kilograms, Over(2.20462)),
    Entry(Kilograms, Ounces, Times(35.274)),
    Entry(Ounces, Kilograms, Over(35.274)),
    Entry(Grams, Milligrams, Times(1000.0)),
    Entry(Milligrams, Grams, Over(1000.0))
  ]

  /** (v·9)/5 + 32 */
  const CelsiusToFahrenheit := Conversion(0.0, 9.0, 5.0, 32.0)
  /** ((v − 32)·5)/9 */
  const FahrenheitToCelsius := Conversion(-32.0, 5.0, 9.0, 0.0)
  /** v + 273.15 */
  const CelsiusToKelvin := Conversion(0.0, 1.0, 1.0, 273.15)
  /** v − 273.15 */
  const KelvinToCelsius := Conversion(-273.15, 1.0, 1.0, 0.0)
  /** ((v − 32)·5)/9 + 273.15 */
  const FahrenheitToKelvin := Conversion(-32.0, 5.0, 9.0, 273.15)
  /** ((v − 273.15)·9)/5 + 32 */
  const KelvinToFahrenheit := Conversion(-273.15, 9.0, 5.0, 32.0)

  const Temperature: seq<Entry> := [
    Entry(Celsius, Fahrenheit, CelsiusToFahrenheit),
    Entry(Fahrenheit, Celsius, FahrenheitToCelsius),
    Entry(Celsius, Kelvin, CelsiusToKelvin),
    Entry(Kelvin, Celsius, KelvinToCelsius),
    Entry(Fahrenheit, Kelvin, FahrenheitToKelvin),
    Entry(Kelvin, Fahrenheit, KelvinToFahrenheit)
  ]

  const Volume: seq<Entry> := [
    Entry(Liters, Milliliters, Times(1000.0)),
    Entry(Milliliters, Liters, Over(1000.0)),
    Entry(Liters, Gallons, Times(0.264172)),
    Entry(Gallons, Liters, Over(0.264172)),
    Entry(Liters, CubicMeters, Over(1000.0)),
    Entry(CubicMeters, Liters, Times(1000.0))
  ]

  const Area: seq<Entry> := [
    Entry(SquareMeters, SquareKilometers, Over(1000000.0)),
    Entry(SquareKilometers, SquareMeters, Times(1000000.0)),
    Entry(SquareMeters, SquareFeet, Times(10.7639)),
    Entry(SquareFeet, SquareMeters, Over(10.7639)),
    Entry(SquareMeters, Acres, Times(0.000247105)),
    Entry(Acres, SquareMeters, Over(0.000247105))
  ]

  const Speed: seq<Entry> := [
    Entry(MetersPerSecond, KilometersPerHour, Times(3.6)),
    Entry(KilometersPerHour, MetersPerSecond, Over(3.6)),
    Entry(MetersPerSecond, MilesPerHour, Times(2.23694)),
    Entry(MilesPerHour, MetersPerSecond, Over(2.23694)),
    Entry(KilometersPerHour, MilesPerHour, Times(0.621371)),
    Entry(MilesPerHour, KilometersPerHour, Over(0.621371))
  ]

  const Time: seq<Entry> := [
    Entry(Seconds, Minutes, Over(60.0)),
    Entry(Minutes, Seconds, Times(60.0)),
    Entry(Minutes, Hours, Over(60.0)),
    Entry(Hours, Minutes, Times(60.0)),
    Entry(Hours, Days, Over(24.0)),
    Entry(Days, Hours, Times(24.0))
  ]

  /** The seven categories that have conversions, by name. */
  const UnitConversions: map<string, seq<Entry>> := map[
    "Length" := Length, "Weight" := Weight, "Temperature" := Temperature, "Volume" := Volume,
    "Area" := Area, "Speed" := Speed, "Time" := Time
  ]

  /**
   * Property names every plain object inherits. Indexing the table with one
   * of them yields an inherited value, which is truthy, instead of undefined.
   */
  const InheritedNames: set<string> := {
    "constructor", "__proto__", "toString", "toLocaleString", "valueOf", "hasOwnProperty",
    "isPrototypeOf", "propertyIsEnumerable", "__defineGetter__", "__defineSetter__",
    "__lookupGetter__", "__lookupSetter__"
  }

  // ---------------------------------------------------------------------
  // Lookup and conversion
  // ---------------------------------------------------------------------

  /** The conversion stored under a key. */
  function Lookup(entries: seq<Entry>, key: string): (c: Option<Conversion>)
    ensures c.None? <==> forall i :: 0 <= i < |entries| ==> Key(entries[i]) != key
    ensures c.Some? ==> exists i :: 0 <= i < |entries| && Key(entries[i]) == key && entries[i].conversion == c.value
  {
    if entries == [] then None
    else if Key(entries[0]) == key then Some(entries[0].conversion)
    else
      var c := Lookup(entries[1..], key);
      assert forall i :: 1 <= i < |entries| ==> entries[i] == entries[1..][i - 1];
      c
  }

  /** The message of the error thrown for a category name the table does not have. */
  function UnknownCategory(category: string): string {
    "Unknown category: " + category
  }

  /** The message of the error thrown for a pair of units the category does not convert. */
  function UnknownConversion(key: string, category: string): string {
    "Unknown conversion: " + key + " in category " + category
  }

  /**
   * Convert a value between two units of a category. Equal units return the
   * value before the category is looked at; otherwise the key "From-To" must
   * be in the category's table.
   */
  function ConvertUnit(value: real, category: string, fromUnit: string, toUnit: string): (r: Result<real, string>)
    ensures fromUnit == toUnit ==> r == Success(value)
    ensures fromUnit != toUnit ==>
              (r.Success? <==> category in UnitConversions && Lookup(UnitConversions[category], fromUnit + "-" + toUnit).Some?)
    ensures fromUnit != toUnit && r.Success? ==>
              exists e :: e in UnitConversions[category] && Key(e) == fromUnit + "-" + toUnit && r.value == Apply(e.conversion, value)
    ensures fromUnit != toUnit && category !in UnitConversions && category !in InheritedNames ==>
              r == Failure(UnknownCategory(category))
    ensures r.Failure? && (category in UnitConversions || category in InheritedNames) ==>
              r == Failure(UnknownConversion(fromUnit + "-" + toUnit, category))
  {
    if fromUnit == toUnit then Success(value)
    else
      var key := fromUnit + "-" + toUnit;
      if category in UnitConversions then
        match Lookup(UnitConversions[category], key)
        case None => Failure(UnknownConversion(key, category))
        case Some(c) => Success(Apply(c, value))
      else if category in InheritedNames then Failure(UnknownConversion(key, category))
      else Failure(UnknownCategory(category))
  }

  // ---------------------------------------------------------------------
  // Shape of the table
  // ---------------------------------------------------------------------

  /** The conversion in the other direction: the affine map inverted, written in the same shape. */
  function Reverse(c: Conversion): (d: Conversion)
    requires c.numerator != 0.0
    ensures d.numerator != 0.0
  {
    Conversion(-c.shift, c.denominator, c.numerator, -c.offset)
  }

  /** Converting back with the reverse conversion gives the value converted. */
  lemma ReverseUndoes(c: Conversion, v: real)
    requires c.numerator != 0.0
    ensures Apply(Reverse(c), Apply(c, v)) == v
  {
    var w := (v + c.offset) * c.numerator / c.denominator;
    assert w * c.denominator == (v + c.offset) * c.numerator;
    DivideBack(w * c.denominator, v + c.offset, c.numerator);
  }

  /** Converting with the reverse first and then forward also gives the value back. */
  lemma ReverseIsUndone(c: Conversion, v: real)
    requires c.numerator != 0.0
    ensures Apply(c, Apply(Reverse(c), v)) == v
  {
    var w := (v - c.shift) * c.denominator / c.numerator;
    assert w * c.numerator == (v - c.shift) * c.denominator;
    DivideBack(w * c.numerator, v - c.shift, c.denominator);
  }

  lemma DivideBack(x: real, y: real, n: real)
    requires n != 0.0 && x == y * n
    ensures x / n == y
  {
    assert (x / n - y) * n == 0.0;
  }

  /** Entry f converts back what entry e converts. */
  predicate Reverses(e: Entry, f: Entry) {
    f.from == e.to && f.to == e.from && e.conversion.numerator != 0.0 && f.conversion == Reverse(e.conversion)
  }

  /** No unit name contains the '-' that separates the two halves of a key. */
  predicate NoDash(s: string) {
    forall k :: 0 <= k < |s| ==> s[k] != '-'
  }

  /** Entries are stored in pairs: entry 2k and entry 2k + 1 are partners. */
  function Partner(i: nat): nat {
    if i % 2 == 0 then i + 1 else i - 1
  }

  /** Each entry converts back what its partner converts, one way or the other. */
  predicate Mirrors(e: Entry, f: Entry) {
    Reverses(e, f) || Reverses(f, e)
  }

  /** Every entry has its partner, and the partner converts back. */
  predicate Paired(entries: seq<Entry>) {
    forall i :: 0 <= i < |entries| ==> Partner(i) < |entries| && Mirrors(entries[i], entries[Partner(i)])
  }

  /** The same pairing, stated pair by pair from the front: entries 0 and 1 mirror each other, and so on down the table. */
  predicate PairsMirror(entries: seq<Entry>)
    decreases |entries|
  {
    if |entries| < 2 then |entries| == 0 else Mirrors(entries[0], entries[1]) && PairsMirror(entries[2..])
  }

  lemma {:induction false} PairsMirrorPaired(entries: seq<Entry>)
    requires PairsMirror(entries)
    ensures Paired(entries)
    decreases |entries|
  {
    if |entries| >= 2 {
      var rest := entries[2..];
      PairsMirrorPaired(rest);
      forall i | 0 <= i < |entries|
        ensures Partner(i) < |entries| && Mirrors(entries[i], entries[Partner(i)])
      {
        if i >= 2 {
          assert Partner(i) == Partner(i - 2) + 2;
          assert entries[i] == rest[i - 2];
          assert entries[Partner(i)] == rest[Partner(i - 2)];
        }
      }
    }
  }

  /** No source unit name contains '-'; with Paired, no target name does either. */
  predicate DashFree(entries: seq<Entry>) {
    forall i :: 0 <= i < |entries| ==> NoDash(entries[i].from)
  }

  /** No two entries convert between the same two units. */
  predicate Distinct(entries: seq<Entry>) {
    forall i, j :: 0 <= i < j < |entries| ==> entries[i].from != entries[j].from || entries[i].to != entries[j].to
  }

  /** What the operations rely on about a category's conversions. */
  predicate GoodTable(entries: seq<Entry>) {
    Paired(entries) && DashFree(entries) && Distinct(entries)
  }

  // Each category's table has that shape; the unit names are checked first, one by one.

  lemma LengthNames()
    ensures NoDash(Meters) && NoDash(Kilometers) && NoDash(Centimeters) && NoDash(Millimeters) && NoDash(Miles) && NoDash(Feet) && NoDash(Inches)
  {
  }

  lemma LengthIsPaired()
    ensures Paired(Length)
  {
    assert PairsMirror(Length[10..]);
    assert PairsMirror(Length[8..]);
    assert PairsMirror(Length[6..]);
    assert PairsMirror(Length[4..]);
    assert PairsMirror(Length[2..]);
    PairsMirrorPaired(Length);
  }

  lemma LengthIsGood()
    ensures GoodTable(Length)
  {
    LengthIsPaired();
    LengthIsDistinct();
    LengthNames();
  }

  lemma LengthIsDistinct()
    ensures Distinct(Length)
  {
  }

  lemma WeightNames()
    ensures NoDash(Kilograms) && NoDash(Grams) && NoDash(Pounds) && NoDash(Ounces) && NoDash(Milligrams)
  {
  }

  lemma WeightIsPaired()
    ensures Paired(Weight)
  {
    assert PairsMirror(Weight[6..]);
    assert PairsMirror(Weight[4..]);
    assert PairsMirror(Weight[2..]);
    PairsMirrorPaired(Weight);
  }

  lemma WeightIsGood()
    ensures GoodTable(Weight)
  {
    WeightIsPaired();
    WeightNames();
  }

  lemma TemperatureNames()
    ensures NoDash(Celsius) && NoDash(Fahrenheit) && NoDash(Kelvin)
  {
  }

  lemma TemperatureIsPaired()
    ensures Paired(Temperature)
  {
    assert PairsMirror(Temperature[4..]);
    assert PairsMirror(Temperature[2..]);
    PairsMirrorPaired(Temperature);
  }

  lemma TemperatureIsGood()
    ensures GoodTable(Temperature)
  {
    TemperatureIsPaired();
    TemperatureNames();
  }

  lemma VolumeNames()
    ensures NoDash(Liters) && NoDash(Milliliters) && NoDash(Gallons) && NoDash(CubicMeters)
  {
  }

  lemma VolumeIsPaired()
    ensures Paired(Volume)
  {
    assert PairsMirror(Volume[4..]);
    assert PairsMirror(Volume[2..]);
    PairsMirrorPaired(Volume);
  }

  lemma VolumeIsGood()
    ensures GoodTable(Volume)
  {
    VolumeIsPaired();
    VolumeNames();
  }

  lemma AreaNames()
    ensures NoDash(SquareMeters) && NoDash(SquareKilometers) && NoDash(SquareFeet) && NoDash(Acres)
  {
  }

  lemma AreaIsPaired()
    ensures Paired(Area)
  {
    assert PairsMirror(Area[4..]);
    assert PairsMirror(Area[2..]);
    PairsMirrorPaired(Area);
  }

  lemma AreaIsGood()
    ensures GoodTable(Area)
  {
    AreaIsPaired();
    AreaNames();
  }

  lemma SpeedNames()
    ensures NoDash(MetersPerSecond) && NoDash(KilometersPerHour) && NoDash(MilesPerHour)
  {
  }

  lemma SpeedIsPaired()
    ensures Paired(Speed)
  {
    assert PairsMirror(Speed[4..]);
    assert PairsMirror(Speed[2..]);
    PairsMirrorPaired(Speed);
  }

  lemma SpeedIsGood()
    ensures GoodTable(Speed)
  {
    SpeedIsPaired();
    SpeedNames();
  }

  lemma TimeNames()
    ensures NoDash(Seconds) && NoDash(Minutes) && NoDash(Hours) && NoDash(Days)
  {
  }

  lemma TimeIsPaired()
    ensures Paired(Time)
  {
    assert PairsMirror(Time[4..]);
    assert PairsMirror(Time[2..]);
    PairsMirrorPaired(Time);
  }

  lemma TimeIsGood()
    ensures GoodTable(Time)
  {
    TimeIsPaired();
    TimeNames();
  }

  /** Every category of the table has that shape. */
  lemma TableIsGood(category: string)
    requires category in UnitConversions
    ensures GoodTable(UnitConversions[category])
  {
    if category == "Length" { LengthIsGood(); }
    else if category == "Weight" { WeightIsGood(); }
    else if category == "Temperature" { TemperatureIsGood(); }
    else if category == "Volume" { VolumeIsGood(); }
    else if category == "Area" { AreaIsGood(); }
    else if category == "Speed" { SpeedIsGood(); }
    else { TimeIsGood(); }
  }

  /** The target names are dash-free too: each is the source name of the partner entry. */
  lemma TargetNoDash(entries: seq<Entry>, i: nat)
    requires GoodTable(entries) && i < |entries|
    ensures NoDash(entries[i].to)
  {
    assert Mirrors(entries[i], entries[Partner(i)]);
  }

  /** A key "a-b" names one pair of dash-free units only. */
  lemma KeyDeterminesUnits(a: string, b: string, c: string, d: string)
    requires NoDash(c) && NoDash(d)
    requires a + "-" + b == c + "-" + d
    ensures a == c && b == d
  {
    var key := a + "-" + b;
    assert key[|a|] == '-';
    assert key[|c|] == '-';
    if |a| != |c| {
      assert false;
    }
    assert a == key[..|a|] && c == key[..|c|];
    assert b == key[|a| + 1..] && d == key[|c| + 1..];
  }

  /** In a table of that shape, an entry's key finds that entry's conversion. */
  lemma LookupFinds(entries: seq<Entry>, i: nat)
    requires GoodTable(entries) && i < |entries|
    ensures Lookup(entries, Key(entries[i])) == Some(entries[i].conversion)
  {
    var c := Lookup(entries, Key(entries[i]));
    var j :| 0 <= j < |entries| && Key(entries[j]) == Key(entries[i]) && entries[j].conversion == c.value;
    TargetNoDash(entries, i);
    KeyDeterminesUnits(entries[j].from, entries[j].to, entries[i].from, entries[i].to);
    assert j == i;
  }

  // ---------------------------------------------------------------------
  // Properties of the conversion
  // ---------------------------------------------------------------------

  /** Converting between the two units of an entry applies that entry's conversion. */
  lemma ConvertFinds(value: real, category: string, i: nat)
    requires category in UnitConversions && i < |UnitConversions[category]|
    requires UnitConversions[category][i].from != UnitConversions[category][i].to
    ensures ConvertUnit(value, category, UnitConversions[category][i].from, UnitConversions[category][i].to).Success?
    ensures ConvertUnit(value, category, UnitConversions[category][i].from, UnitConversions[category][i].to).value
            == Apply(UnitConversions[category][i].conversion, value)
  {
    TableIsGood(category);
    LookupFinds(UnitConversions[category], i);
  }

  /** The entry a successful lookup used, with its partner entry in the other direction. */
  lemma FoundEntry(entries: seq<Entry>, fromUnit: string, toUnit: string) returns (i: nat, j: nat)
    requires GoodTable(entries)
    requires Lookup(entries, fromUnit + "-" + toUnit).Some?
    ensures i < |entries| && j < |entries|
    ensures entries[i].from == fromUnit && entries[i].to == toUnit
    ensures entries[j].from == toUnit && entries[j].to == fromUnit
    ensures Reverses(entries[i], entries[j]) || Reverses(entries[j], entries[i])
  {
    var c := Lookup(entries, fromUnit + "-" + toUnit).value;
    i :| 0 <= i < |entries| && Key(entries[i]) == fromUnit + "-" + toUnit && entries[i].conversion == c;
    TargetNoDash(entries, i);
    KeyDeterminesUnits(fromUnit, toUnit, entries[i].from, entries[i].to);
    j := Partner(i);
  }

  /** Converting a value and converting the result back gives the value: every conversion has its reverse. */
  lemma ConvertRoundTrip(value: real, category: string, fromUnit: string, toUnit: string)
    requires ConvertUnit(value, category, fromUnit, toUnit).Success?
    ensures ConvertUnit(ConvertUnit(value, category, fromUnit, toUnit).value, category, toUnit, fromUnit).Success?
    ensures ConvertUnit(ConvertUnit(value, category, fromUnit, toUnit).value, category, toUnit, fromUnit).value == value
  {
    if fromUnit != toUnit {
      var entries := UnitConversions[category];
      TableIsGood(category);
      var i, j := FoundEntry(entries, fromUnit, toUnit);
      ConvertFinds(value, category, i);
      var w := Apply(entries[i].conversion, value);
      ConvertFinds(w, category, j);
      if Reverses(entries[i], entries[j]) {
        ReverseUndoes(entries[i].conversion, value);
      } else {
        ReverseIsUndone(entries[j].conversion, value);
      }
    }
  }

  /** Fahrenheit to Kelvin is Fahrenheit to Celsius followed by Celsius to Kelvin. */
  lemma FahrenheitToKelvinViaCelsius(v: real)
    ensures ConvertUnit(v, "Temperature", Fahrenheit, Celsius).Success?
    ensures ConvertUnit(ConvertUnit(v, "Temperature", Fahrenheit, Celsius).value, "Temperature", Celsius, Kelvin).Success?
    ensures ConvertUnit(v, "Temperature", Fahrenheit, Kelvin).Success?
    ensures ConvertUnit(v, "Temperature", Fahrenheit, Kelvin).value
            == ConvertUnit(ConvertUnit(v, "Temperature", Fahrenheit, Celsius).value, "Temperature", Celsius, Kelvin).value
  {
    var t := UnitConversions["Temperature"];
    assert t[1] == Entry(Fahrenheit, Celsius, FahrenheitToCelsius);
    assert t[2] == Entry(Celsius, Kelvin, CelsiusToKelvin);
    assert t[4] == Entry(Fahrenheit, Kelvin, FahrenheitToKelvin);
    ConvertFinds(v, "Temperature", 1);
    ConvertFinds(Apply(FahrenheitToCelsius, v), "Temperature", 2);
    ConvertFinds(v, "Temperature", 4);
  }

  /** Kelvin to Fahrenheit is Kelvin to Celsius followed by Celsius to Fahrenheit. */
  lemma KelvinToFahrenheitViaCelsius(v: real)
    ensures ConvertUnit(v, "Temperature", Kelvin, Celsius).Success?
    ensures ConvertUnit(ConvertUnit(v, "Temperature", Kelvin, Celsius).value, "Temperature", Celsius, Fahrenheit).Success?
    ensures ConvertUnit(v, "Temperature", Kelvin, Fahrenheit).Success?
    ensures ConvertUnit(v, "Temperature", Kelvin, Fahrenheit).value
            == ConvertUnit(ConvertUnit(v, "Temperature", Kelvin, Celsius).value, "Temperature", Celsius, Fahrenheit).value
  {
    var t := UnitConversions["Temperature"];
    assert t[3] == Entry(Kelvin, Celsius, KelvinToCelsius);
    assert t[0] == Entry(Celsius, Fahrenheit, CelsiusToFahrenheit);
    assert t[5] == Entry(Kelvin, Fahrenheit, KelvinToFahrenheit);
    ConvertFinds(v, "Temperature", 3);
    ConvertFinds(Apply(KelvinToCelsius, v), "Temperature", 0);
    ConvertFinds(v, "Temperature", 5);
  }

  /** In a table of that shape, a pair of dash-free units no entry converts between is not found. */
  lemma LookupMissing(entries: seq<Entry>, a: string, b: string)
    requires GoodTable(entries) && NoDash(a) && NoDash(b)
    requires forall i :: 0 <= i < |entries| ==> entries[i].from != a || entries[i].to != b
    ensures Lookup(entries, a + "-" + b).None?
  {
    forall i | 0 <= i < |entries|
      ensures Key(entries[i]) != a + "-" + b
    {
      if Key(entries[i]) == a + "-" + b {
        KeyDeterminesUnits(entries[i].from, entries[i].to, a, b);
      }
    }
  }

  /** Feet and inches are both lengths, but the table only converts each of them to and from meters. */
  lemma FeetToInchesIsUnknown(value: real)
    ensures ConvertUnit(value, "Length", Feet, Inches) == Failure(UnknownConversion("Feet-Inches", "Length"))
  {
    LengthIsGood();
    LengthNames();
    assert forall i :: 0 <= i < |Length| ==> Length[i].from != Feet || Length[i].to != Inches;
    LookupMissing(Length, Feet, Inches);
    assert Feet + "-" + Inches == "Feet-Inches";
  }

  /** 1000 meters are 1 kilometer. */
  lemma MetersToKilometersExample()
    ensures ConvertUnit(1000.0, "Length", Meters, Kilometers).Success?
    ensures ConvertUnit(1000.0, "Length", Meters, Kilometers).value == 1.0
  {
    assert UnitConversions["Length"][0] == Entry(Meters, Kilometers, Over(1000.0));
    ConvertFinds(1000.0, "Length", 0);
  }

  /** The first seven categories the converter screen lists are exactly those of the table. */
  lemma TableCategoriesAreListed()
    ensures forall i :: 0 <= i < 7 ==> UnitCategories[i] in UnitConversions
    ensures forall c :: c in UnitConversions ==> c in UnitCategories[..7]
  {
    assert UnitConversions.Keys == {"Length", "Weight", "Temperature", "Volume", "Area", "Speed", "Time"};
    assert UnitCategories[..7] == ["Length", "Weight", "Temperature", "Volume", "Area", "Speed", "Time"];
  }

  /**
   * The last three listed categories have no conversions: converting between
   * two different units of one of them fails with an unknown category.
   */
  lemma ListedCategoriesWithoutTable(value: real, fromUnit: string, toUnit: string)
    requires fromUnit != toUnit
    ensures forall i :: 7 <= i < |UnitCategories| ==>
              ConvertUnit(value, UnitCategories[i], fromUnit, toUnit) == Failure(UnknownCategory(UnitCategories[i]))
  {
    assert UnitCategories[7..] == ["Energy", "Power", "Pressure"];
    assert "Energy" !in UnitConversions && "Power" !in UnitConversions && "Pressure" !in UnitConversions;
    assert "Energy" !in InheritedNames && "Power" !in InheritedNames && "Pressure" !in InheritedNames;
  }

  // ---------------------------------------------------------------------
  // Units of a category
  // ---------------------------------------------------------------------

  /** String split on a one-character separator: the pieces between separators, at least one. */
  function Split(s: string, sep: char): (pieces: seq<string>)
    ensures |pieces| >= 1
  {
    if |s| == 0 then [""]
    else
      var rest := Split(s[1..], sep);
      if s[0] == sep then [""] + rest else [[s[0]] + rest[0]] + rest[1..]
  }

  /** The pieces joined back with the separator. */
  function Join(pieces: seq<string>, sep: char): string
    requires |pieces| >= 1
  {
    if |pieces| == 1 then pieces[0] else pieces[0] + [sep] + Join(pieces[1..], sep)
  }

  /** Splitting loses nothing: joining the pieces with the separator gives the string back. */
  lemma {:induction false} SplitJoin(s: string, sep: char)
    ensures Join(Split(s, sep), sep) == s
  {
    if |s| > 0 {
      SplitJoin(s[1..], sep);
      var rest := Split(s[1..], sep);
      if s[0] == sep {
        assert Split(s, sep)[1..] == rest;
        assert s == [sep] + s[1..];
      } else {
        var pieces := Split(s, sep);
        assert pieces[0] == [s[0]] + rest[0];
        if |rest| == 1 {
          assert s == [s[0]] + rest[0];
        } else {
          assert pieces[1..] == rest[1..];
          assert Join(rest, sep) == rest[0] + [sep] + Join(rest[1..], sep);
          assert s == [s[0]] + s[1..];
        }
      }
    }
  }

  /** A string without the separator is one piece. */
  lemma {:induction false} SplitWithoutSeparator(s: string, sep: char)
    requires forall k :: 0 <= k < |s| ==> s[k] != sep
    ensures Split(s, sep) == [s]
  {
    if |s| > 0 {
      SplitWithoutSeparator(s[1..], sep);
      assert s == [s[0]] + s[1..];
    }
  }

  /** A key of two dash-free names splits into those two names. */
  lemma {:induction false} SplitKey(a: string, b: string)
    requires NoDash(a) && NoDash(b)
    ensures Split(a + "-" + b, '-') == [a, b]
  {
    if |a| == 0 {
      assert a + "-" + b == ['-'] + b;
      assert (a + "-" + b)[1..] == b;
      SplitWithoutSeparator(b, '-');
    } else {
      SplitKey(a[1..], b);
      assert (a + "-" + b)[1..] == a[1..] + "-" + b;
      assert a == [a[0]] + a[1..];
    }
  }

  /** The default array sort order: strings compared character by character, a proper prefix first. */
  predicate Below(a: string, b: string) {
    |b| > 0 && (|a| == 0 || a[0] < b[0] || (a[0] == b[0] && Below(a[1..], b[1..])))
  }

  lemma {:induction false} BelowIrreflexive(a: string)
    ensures !Below(a, a)
  {
    if |a| > 0 {
      BelowIrreflexive(a[1..]);
    }
  }

  lemma {:induction false} BelowTransitive(a: string, b: string, c: string)
    requires Below(a, b) && Below(b, c)
    ensures Below(a, c)
  {
    if |a| > 0 && a[0] == b[0] && b[0] == c[0] {
      BelowTransitive(a[1..], b[1..], c[1..]);
    }
  }

  /** Two different strings are ordered one way or the other. */
  lemma {:induction false} BelowTotal(a: string, b: string)
    requires a != b
    ensures Below(a, b) || Below(b, a)
  {
    if |a| > 0 && |b| > 0 && a[0] == b[0] {
      assert a == [a[0]] + a[1..] && b == [b[0]] + b[1..];
      BelowTotal(a[1..], b[1..]);
    }
  }

  predicate StrictlyAscending(s: seq<string>) {
    forall i, j :: 0 <= i < j < |s| ==> Below(s[i], s[j])
  }

  /** Insert a new string into a strictly ascending sequence, keeping it strictly ascending. */
  function InsertSorted(s: seq<string>, u: string): (r: seq<string>)
    requires StrictlyAscending(s) && u !in s
    ensures StrictlyAscending(r)
    ensures multiset(r) == multiset(s) + multiset{u}
  {
    if |s| == 0 then [u]
    else if Below(u, s[0]) then
      assert forall j :: 0 <= j < |s| ==> Below(u, s[j]) by {
        forall j | 0 < j < |s| {
          BelowTransitive(u, s[0], s[j]);
        }
      }
      [u] + s
    else
      var rest := InsertSorted(s[1..], u);
      assert Below(s[0], u) by {
        BelowTotal(s[0], u);
      }
      assert s == [s[0]] + s[1..];
      assert forall x :: x in rest ==> Below(s[0], x) by {
        forall x | x in rest
          ensures Below(s[0], x)
        {
          assert x in multiset(rest);
          if x != u {
            assert x in s[1..];
          }
        }
      }
      [s[0]] + rest
  }

  /** A strictly ascending sequence is determined by its elements: there is one way to sort a set. */
  lemma {:induction false} AscendingUnique(a: seq<string>, b: seq<string>)
    requires StrictlyAscending(a) && StrictlyAscending(b)
    requires forall x :: x in a <==> x in b
    ensures a == b
  {
    assert |a| > 0 ==> a[0] in b;
    assert |b| > 0 ==> b[0] in a;
    if |a| > 0 && |b| > 0 {
      assert a[0] == b[0] by {
        if a[0] != b[0] {
          assert a[0] in b && b[0] in a;
          var i :| 0 <= i < |a| && a[i] == b[0];
          var k :| 0 <= k < |b| && b[k] == a[0];
          BelowTransitive(a[0], b[0], a[0]);
          BelowIrreflexive(a[0]);
        }
      }
      forall x
        ensures x in a[1..] <==> x in b[1..]
      {
        Distinct1(a, x);
        Distinct1(b, x);
      }
      AscendingUnique(a[1..], b[1..]);
      assert a == [a[0]] + a[1..] && b == [b[0]] + b[1..];
    }
  }

  /** In a strictly ascending sequence the head does not recur in the tail. */
  lemma Distinct1(s: seq<string>, x: string)
    requires StrictlyAscending(s) && |s| > 0
    ensures x in s[1..] <==> x in s && x != s[0]
  {
    if x in s[1..] {
      var k :| 0 <= k < |s[1..]| && s[1..][k] == x;
      assert Below(s[0], s[k + 1]);
      BelowIrreflexive(x);
    }
    if x in s && x != s[0] {
      var k :| 0 <= k < |s| && s[k] == x;
      assert s[1..][k - 1] == x;
    }
  }

  /**
   * The units a category converts between, in ascending order without
   * repeats: both names of every key, gathered in a set and then sorted.
   * A category the table does not have gives no units.
   */
  method GetUnitsForCategory(category: string) returns (units: seq<string>)
    ensures category !in UnitConversions ==> units == []
    ensures StrictlyAscending(units)
    ensures category in UnitConversions ==>
              forall u :: u in units <==>
                exists i :: 0 <= i < |UnitConversions[category]| &&
                  (UnitConversions[category][i].from == u || UnitConversions[category][i].to == u)
  {
    if category !in UnitConversions {
      return [];
    }
    var conversions := UnitConversions[category];
    TableIsGood(category);
    var found: set<string> := {};
    for i := 0 to |conversions|
      invariant forall u :: u in found <==>
                  exists k :: 0 <= k < i && (conversions[k].from == u || conversions[k].to == u)
    {
      var pieces := Split(Key(conversions[i]), '-');
      TargetNoDash(conversions, i);
      SplitKey(conversions[i].from, conversions[i].to);
      found := found + {pieces[0], pieces[1]};
    }
    units := [];
    var remaining := found;
    while remaining != {}
      invariant StrictlyAscending(units)
      invariant forall u :: u in units <==> u in found && u !in remaining
      invariant remaining <= found
      decreases |remaining|
    {
      var u :| u in remaining;
      units := InsertSorted(units, u);
      assert forall x :: x in units <==> x in multiset(units);
      remaining := remaining - {u};
    }
  }

  /** Whatever satisfies the contract of GetUnitsForCategory for temperatures is Celsius, Fahrenheit, Kelvin. */
  lemma TemperatureUnits(units: seq<string>)
    requires StrictlyAscending(units)
    requires forall u :: u in units <==>
               exists i :: 0 <= i < |UnitConversions["Temperature"]| &&
                 (UnitConversions["Temperature"][i].from == u || UnitConversions["Temperature"][i].to == u)
    ensures units == [Celsius, Fahrenheit, Kelvin]
  {
    var t := UnitConversions["Temperature"];
    assert t == Temperature;
    var expected := [Celsius, Fahrenheit, Kelvin];
    assert Below(Celsius, Fahrenheit) && Below(Fahrenheit, Kelvin) && Below(Celsius, Kelvin);
    forall u
      ensures u in units <==> u in expected
    {
      if u in expected {
        if u == Celsius { assert t[0].from == u; }
        else if u == Fahrenheit { assert t[1].from == u; }
        else { assert t[3].from == u; }
      }
    }
    AscendingUnique(units, expected);
  }
}
