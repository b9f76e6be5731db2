/** `humanReadableSize`: the choice of unit, and the exact `"%d bytes"`
    rendering used below one kibibyte. The fractional `%f` rendering of the
    larger units is not modelled; those carry the unit and the raw size. */
module HumanSize {
  import opened Wrappers

  // ---------------------------------------------------------------------
  // Decimal rendering, as Go's `%d` prints an integer.
  // ---------------------------------------------------------------------

  predicate IsDigit(c: char) {
    '0' <= c <= '9'
  }

  predicate AllDigits(s: string) {
    forall i :: 0 <= i < |s| ==> IsDigit(s[i])
  }

  /** The digits of `n`, most significant first, without leading zeros. */
  function DigitsOf(n: nat): (s: string)
    ensures |s| >= 1 && AllDigits(s)
    ensures |s| > 1 ==> s[0] != '0'
  {
    if n < 10 then ['0' + n as char]
    else DigitsOf(n / 10) + ['0' + (n % 10) as char]
  }

  /** The number a digit string denotes. */
  function ValueOfDigits(s: string): nat
    requires AllDigits(s)
  {
    if |s| == 0 then 0
    else ValueOfDigits(s[..|s| - 1]) * 10 + (s[|s| - 1] - '0') as nat
  }

  lemma {:induction false} DigitsRoundTrip(n: nat)
    ensures ValueOfDigits(DigitsOf(n)) == n
  {
    if n >= 10 {
      var s := DigitsOf(n);
      assert s[..|s| - 1] == DigitsOf(n / 10);
      DigitsRoundTrip(n / 10);
    }
  }

  /** `%d`: an optional minus sign followed by the digits. */
  function Decimal(n: int): string {
    if n < 0 then "-" + DigitsOf(-n) else DigitsOf(n)
  }

  /** Reads back what `Decimal` writes; `None` for anything else. */
  function ParseDecimal(s: string): Option<int> {
    if |s| > 0 && s[0] == '-' then
      if |s| > 1 && AllDigits(s[1..]) then Some(-(ValueOfDigits(s[1..]) as int)) else None
    else if |s| > 0 && AllDigits(s) then Some(ValueOfDigits(s))
    else None
  }

  lemma DecimalRoundTrip(n: int)
    ensures ParseDecimal(Decimal(n)) == Some(n)
  {
    var s := Decimal(n);
    if n < 0 {
      var digits := DigitsOf(-n);
      assert s == "-" + digits;
      assert s[0] == '-' && s[1..] == digits;
      DigitsRoundTrip(-n);
    } else {
      assert IsDigit(s[0]);
      DigitsRoundTrip(n);
    }
  }

  // ---------------------------------------------------------------------
  // Unit selection.
  // ---------------------------------------------------------------------

  datatype Unit = Bytes | KB | MB | GB

  /** How many bytes one of the unit stands for. */
  function Scale(u: Unit): nat {
    match u
    case Bytes => 1
    case KB => 1024
    case MB => 1024 * 1024
    case GB => 1024 * 1024 * 1024
  }

  /** The unit `humanReadableSize` picks: the largest one that the size
      reaches, so the printed quantity is at least 1 and, below GB, under 1024. */
  function UnitFor(size: int): (u: Unit)
    ensures u != Bytes ==> Scale(u) <= size
    ensures u != GB ==> size < Scale(u) * 1024
  {
    if size < 1024 then Bytes
    else if size < 1024 * 1024 then KB
    else if size < 1024 * 1024 * 1024 then MB
    else GB
  }

  /** Those two conditions leave no choice: any unit meeting them is the
      one `UnitFor` picks. */
  lemma UnitForIsUnique(size: int, u: Unit)
    requires u != Bytes ==> Scale(u) <= size
    requires u != GB ==> size < Scale(u) * 1024
    ensures u == UnitFor(size)
  {
  }

  datatype HumanSize =
    | Exact(text: string)            // "<n> bytes"
    | Scaled(unit: Unit, size: int)  // "<size / Scale(unit)> <unit>", fraction not modelled

  function HumanReadableSize(size: int): (r: HumanSize)
    ensures r.Exact? <==> size < 1024
    ensures r.Exact? ==>
              && |r.text| > 6
              && r.text[|r.text| - 6..] == " bytes"
              && ParseDecimal(r.text[..|r.text| - 6]) == Some(size)
    ensures r.Scaled? ==> r.unit == UnitFor(size) && r.unit != Bytes && r.size == size
  {
    if UnitFor(size) == Bytes then
      var text := Decimal(size) + " bytes";
      DecimalRoundTrip(size);
      assert text[..|text| - 6] == Decimal(size);
      Exact(text)
    else Scaled(UnitFor(size), size)
  }
}
