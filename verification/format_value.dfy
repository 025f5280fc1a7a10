/** Unit formatting (src/lib/formatValue.ts): `formatValue` renders a number
    with its question's unit, and `getUnitDisplay` gives the same unit as a
    separate prefix and suffix for input fields. */
module UnitFormat {
  import opened Wrappers

  /** The `unit_type` enumeration: `none | currency | percentage | custom`. */
  datatype UnitType = NoUnit | Currency | Percentage | Custom

  datatype UnitDisplay = UnitDisplay(prefix: string, suffix: string)

  function DigitChar(d: nat): char
    requires d < 10
  {
    "0123456789"[d]
  }

  /** Decimal digits of `n`, most significant first. */
  function Digits(n: nat): (r: string)
    ensures |r| > 0
    ensures forall c :: c in r ==> '0' <= c <= '9'
  {
    if n < 10 then [DigitChar(n)] else Digits(n / 10) + [DigitChar(n % 10)]
  }

  /** Inserts a `,` between every group of three digits, from the right. */
  function Group(d: string): (r: string)
    requires |d| > 0
    ensures |r| > 0 && r[0] == d[0]
    ensures forall c :: c in r ==> c in d || c == ','
    decreases |d|
  {
    if |d| <= 3 then d else Group(d[..|d| - 3]) + "," + d[|d| - 3..]
  }

  /** `value.toLocaleString()` for an integer in the `en-US` locale. */
  function FormatNumber(value: int): (r: string)
    ensures |r| > 0
    ensures r[0] == '-' <==> value < 0
    ensures forall c :: c in r ==> c == '-' || c == ',' || '0' <= c <= '9'
  {
    var digits := Digits(if value < 0 then -value else value);
    assert digits[0] in digits;
    if value < 0 then "-" + Group(digits) else Group(digits)
  }

  /** `formatValue(value, unitType, customUnit)`. A currency amount is the
      unit (or `$`) followed by the number; every other kind starts with the
      number, followed by `%`, by a space and the custom unit, or by nothing. */
  function FormatValue(value: int, unitType: UnitType, customUnit: Option<string>): (r: string)
    ensures var n := FormatNumber(value);
      if unitType == Currency then
        |r| > |n| && r[|r| - |n|..] == n
        && r[..|r| - |n|] == (if Truthy(customUnit) then customUnit.value else "$")
      else
        |r| >= |n| && r[..|n|] == n
        && r[|n|..] == (match unitType
                        case Percentage => "%"
                        case Custom => if Truthy(customUnit) then " " + customUnit.value else ""
                        case _ => "")
  {
    var formattedNumber := FormatNumber(value);
    match unitType
    case Currency => (if Truthy(customUnit) then customUnit.value else "$") + formattedNumber
    case Percentage => formattedNumber + "%"
    case Custom => if Truthy(customUnit) then formattedNumber + " " + customUnit.value else formattedNumber
    case NoUnit => formattedNumber
  }

  /** `getUnitDisplay(unitType, customUnit)`. Only a currency has a prefix
      (its unit, or `$`); only a percentage or a custom unit has a suffix. */
  function GetUnitDisplay(unitType: UnitType, customUnit: Option<string>): (d: UnitDisplay)
    ensures d.prefix != "" <==> unitType == Currency
    ensures d.suffix != "" <==> unitType == Percentage || (unitType == Custom && Truthy(customUnit))
    ensures unitType == Currency ==> d.prefix == if Truthy(customUnit) then customUnit.value else "$"
    ensures unitType == Percentage ==> d.suffix == "%"
    ensures unitType == Custom && Truthy(customUnit) ==> d.suffix == " " + customUnit.value
  {
    match unitType
    case Currency => UnitDisplay(if Truthy(customUnit) then customUnit.value else "$", "")
    case Percentage => UnitDisplay("", "%")
    case Custom => UnitDisplay("", if Truthy(customUnit) then " " + customUnit.value else "")
    case NoUnit => UnitDisplay("", "")
  }

  /** The two functions agree: the formatted value is the display prefix,
      the formatted number and the display suffix, for every unit. */
  lemma FormatValueMatchesDisplay(value: int, unitType: UnitType, customUnit: Option<string>)
    ensures var d := GetUnitDisplay(unitType, customUnit);
      FormatValue(value, unitType, customUnit) == d.prefix + FormatNumber(value) + d.suffix
  {
    var n := FormatNumber(value);
    match unitType
    case Currency =>
    case Percentage =>
    case Custom =>
      if Truthy(customUnit) {
        assert n + " " + customUnit.value == n + (" " + customUnit.value);
      }
    case NoUnit =>
      assert n == "" + n + "";
  }
}
