/** Units of measure: a number with a unit is turned into bytes, and bytes into the unit of an option. */
module Units {

  datatype UnitName =
    | Kilobyte | Megabyte | Gigabyte | Terrabyte
    | Hours | Minutes | Seconds | Milliseconds | Microseconds
    | OtherName

  datatype Unit =
    | NoUnit | Bytes | Kilobytes | Megabytes | Gigabytes | Terabytes | Petabytes | Sectors
    | UnitMilliseconds | UnitMicroseconds
    | OtherUnit

  const TWO_TO_63: int := 0x8000_0000_0000_0000

  predicate Fits(x: int) { -TWO_TO_63 <= x < TWO_TO_63 }

  /** What a signed 64-bit variable holds when x is stored in it. */
  function Wrapped(x: int): (r: int)
    ensures Fits(r) && (r == x <==> Fits(x))
  {
    (x + TWO_TO_63) % (2 * TWO_TO_63) - TWO_TO_63
  }

  predicate IsSize(u: UnitName) { u == Kilobyte || u == Megabyte || u == Gigabyte || u == Terrabyte }

  predicate IsTime(u: UnitName) { !IsSize(u) && u != OtherName }

  /** How many bytes, or how many microseconds, one unit is. */
  function Factor(u: UnitName): nat {
    match u
    case Kilobyte => 1024
    case Megabyte => 1048576
    case Gigabyte => 1073741824
    case Terrabyte => 1073741824 * 1024
    case Hours => 1000000 * 3600
    case Minutes => 1000000 * 60
    case Seconds => 1000000
    case Milliseconds => 1000
    case _ => 1
  }

  /** The number and the value of Current_Units that Do_Unit_Conversion leaves; no number for an unknown unit. */
  datatype Converted = Converted(number: int, unit: Unit) | BadUnit

  function Convert(number: int, u: UnitName): Converted {
    if u == OtherName then BadUnit else Converted(Wrapped(number * Factor(u)), if IsSize(u) then Bytes else UnitMicroseconds)
  }

  /** Division as the language does it, truncating toward zero. */
  function Quotient(a: int, b: int): int
    requires b > 0
  {
    if a >= 0 then a / b else -(-a / b)
  }

  /** How many bytes one unit of an option is, if it is a unit that bytes are converted to. */
  function Divisor(u: Unit): (d: nat) {
    match u
    case Bytes => 1
    case Kilobytes => 1024
    case Megabytes => 1048576
    case Gigabytes => 1073741824
    case Terabytes => 1073741824 * 1024
    case Petabytes => 1073741824 * 1024 * 1024
    case Sectors => 512
    case _ => 0
  }

  /** A number for an option, or the end of the program. */
  datatype OptionValue = Value(number: int) | Exit | Abort

  function ConvertInt(current: Unit, option: Unit, value: int): OptionValue {
    if current == NoUnit || current == option then Value(value)
    else if current == Bytes then
      if Divisor(option) == 0 then Exit else Value(Quotient(value, Divisor(option)))
    else Abort
  }

  // ----- what the two conversions come to together

  /** r is a / b with the fraction cut off: no further from 0 than the quotient, less than one away from it. */
  predicate Truncates(r: int, a: int, b: int) {
    if a >= 0 then r >= 0 && r * b <= a < (r + 1) * b else r <= 0 && (r - 1) * b < a <= r * b
  }

  lemma QuotientTruncates(a: int, b: int)
    requires b > 0
    ensures Truncates(Quotient(a, b), a, b)
  {
    var m := if a >= 0 then a else -a;
    assert m == b * (m / b) + m % b;
    assert (m / b + 1) * b == b * (m / b) + b;
  }

  lemma ProductAtLeast(x: int, y: int, b: int)
    requires x <= y && b >= 0
    ensures x * b <= y * b
  {
  }

  lemma TruncationMonotone(r: int, a: int, s: int, c: int, b: int)
    requires b > 0 && a <= c && Truncates(r, a, b) && Truncates(s, c, b)
    ensures r <= s
  {
    if r > s {
      ProductAtLeast(s + 1, r, b);
      ProductAtLeast(s, r - 1, b);
    }
  }

  lemma TruncatesOnce(r: int, s: int, a: int, b: int)
    requires b > 0 && Truncates(r, a, b) && Truncates(s, a, b)
    ensures r == s
  {
    TruncationMonotone(r, a, s, a, b);
    TruncationMonotone(s, a, r, a, b);
  }

  /** The number that an option of unit t gets for n given in unit u. */
  function OptionNumber(n: int, u: UnitName, t: Unit): OptionValue
    requires u != OtherName
  {
    var c := Convert(n, u);
    ConvertInt(c.unit, t, c.number)
  }

  /**
   * Sizes compose exactly: n times the factor of the given unit divided by that of the unit of the option, truncated
   * toward zero, as long as the product fits in the variable.
   */
  lemma SizesCompose(n: int, u: UnitName, t: Unit)
    requires IsSize(u) && Divisor(t) > 0 && Fits(n * Factor(u))
    ensures OptionNumber(n, u, t).Value?
    ensures Truncates(OptionNumber(n, u, t).number, n * Factor(u), Divisor(t))
  {
    QuotientTruncates(n * Factor(u), Divisor(t));
  }

  /** The number of bytes is right if and only if the product fits. */
  lemma BytesAreExact(n: int, u: UnitName)
    requires IsSize(u)
    ensures Convert(n, u).Converted? && Convert(n, u).unit == Bytes
    ensures Convert(n, u).number == n * Factor(u) <==> Fits(n * Factor(u))
  {
  }

  /** When the factor of the option divides that of the given unit nothing is cut off. */
  lemma SizesExact(n: int, u: UnitName, t: Unit, q: nat)
    requires IsSize(u) && Divisor(t) > 0 && Fits(n * Factor(u)) && Factor(u) == q * Divisor(t)
    ensures OptionNumber(n, u, t) == Value(n * q)
  {
    ExactQuotient(n, Factor(u), q, Divisor(t));
  }

  lemma Associates(a: int, b: int, c: int)
    ensures a * (b * c) == (a * b) * c
  {
  }

  lemma ExactQuotient(n: int, f: nat, q: nat, d: nat)
    requires d > 0 && f == q * d
    ensures Quotient(n * f, d) == n * q
  {
    Associates(n, q, d);
    QuotientTruncates(n * f, d);
    TruncatesExactly(n * q, d);
    TruncatesOnce(Quotient(n * f, d), n * q, n * f, d);
  }

  lemma TruncatesExactly(r: int, b: int)
    requires b > 0
    ensures Truncates(r, r * b, b)
  {
    assert (r + 1) * b == r * b + b && (r - 1) * b == r * b - b;
    if r >= 0 {
      ProductAtLeast(0, r, b);
    } else {
      ProductAtLeast(r + 1, 0, b);
    }
  }

  /** More of a unit is never less of another one. */
  lemma SizesMonotone(m: int, n: int, u: UnitName, t: Unit)
    requires IsSize(u) && Divisor(t) > 0 && m <= n && Fits(m * Factor(u)) && Fits(n * Factor(u))
    ensures OptionNumber(m, u, t).number <= OptionNumber(n, u, t).number
  {
    var d := Divisor(t);
    SizesCompose(m, u, t);
    SizesCompose(n, u, t);
    ProductAtLeast(m, n, Factor(u));
    TruncationMonotone(OptionNumber(m, u, t).number, m * Factor(u), OptionNumber(n, u, t).number, n * Factor(u), d);
  }

  /** A time reaches an option only unchanged; for an option of any other unit the program ends. */
  lemma TimesAreNotConverted(n: int, u: UnitName, t: Unit)
    requires IsTime(u)
    ensures OptionNumber(n, u, t) ==
            if t == UnitMicroseconds then Value(Wrapped(n * Factor(u))) else Abort
  {
  }

  // ----- what the units are

  function Power(base: nat, k: nat): nat {
    if k == 0 then 1 else base * Power(base, k - 1)
  }

  /** How often a unit of size is 1024 of the one below it, down to bytes. */
  function Steps(u: UnitName): nat
    requires IsSize(u)
  {
    match u
    case Kilobyte => 1
    case Megabyte => 2
    case Gigabyte => 3
    case Terrabyte => 4
  }

  function OptionSteps(t: Unit): nat
    requires t.Bytes? || t.Kilobytes? || t.Megabytes? || t.Gigabytes? || t.Terabytes? || t.Petabytes?
  {
    match t
    case Bytes => 0
    case Kilobytes => 1
    case Megabytes => 2
    case Gigabytes => 3
    case Terabytes => 4
    case Petabytes => 5
  }

  lemma PowersOf1024()
    ensures Power(1024, 0) == 1 && Power(1024, 1) == 1024 && Power(1024, 2) == 1024 * 1024
    ensures Power(1024, 3) == 1024 * 1024 * 1024 && Power(1024, 4) == 1024 * 1024 * 1024 * 1024
    ensures Power(1024, 5) == 1024 * 1024 * 1024 * 1024 * 1024
  {
    assert Power(1024, 3) == 1024 * Power(1024, 2);
    assert Power(1024, 5) == 1024 * Power(1024, 4);
  }

  lemma {:induction false} PowerSum(base: nat, j: nat, k: nat)
    ensures Power(base, j + k) == Power(base, j) * Power(base, k)
  {
    if j > 0 {
      PowerSum(base, j - 1, k);
      Regroup(base, Power(base, j - 1), Power(base, k));
    }
  }

  lemma Regroup(a: nat, b: nat, c: nat)
    ensures a * (b * c) == a * b * c
  {
  }

  lemma {:induction false} PowerPositive(base: nat, k: nat)
    requires base > 0
    ensures Power(base, k) > 0
  {
    if k > 0 {
      PowerPositive(base, k - 1);
    }
  }

  /** A factor that numerator and denominator share cancels out. */
  lemma TruncatesReduced(r: int, n: int, a: nat, c: nat)
    requires a > 0 && c > 0 && Truncates(r, n * a, a * c)
    ensures Truncates(r, n, c)
  {
    assert r * (a * c) == (r * c) * a && (r + 1) * (a * c) == ((r + 1) * c) * a && (r - 1) * (a * c) == ((r - 1) * c) * a;
    Cancel(r * c, n, a);
    Cancel(n, (r + 1) * c, a);
    Cancel((r - 1) * c, n, a);
    Cancel(n, r * c, a);
    if n < 0 {
      ProductAtLeast(n + 1, 0, a);
    } else {
      ProductAtLeast(0, n, a);
    }
  }

  lemma Cancel(x: int, y: int, a: nat)
    requires a > 0
    ensures x * a <= y * a <==> x <= y
  {
    if x <= y {
      ProductAtLeast(x, y, a);
    } else {
      ProductAtLeast(y + 1, x, a);
    }
  }

  /**
   * A kilobyte is 1024 bytes and every further unit of size 1024 of the one before, for the number as for the option: a
   * smaller unit gets the number times a power of 1024, and a larger one the number divided by one, truncated.
   */
  lemma SizesByPowers(n: int, u: UnitName, t: Unit)
    requires u.Kilobyte? || u.Megabyte? || u.Gigabyte? || u.Terrabyte?
    requires t.Bytes? || t.Kilobytes? || t.Megabytes? || t.Gigabytes? || t.Terabytes? || t.Petabytes?
    requires -0x8000_0000_0000_0000 <= n * Power(1024, Steps(u)) < 0x8000_0000_0000_0000
    ensures Convert(n, u) == Converted(n * Power(1024, Steps(u)), Bytes)
    ensures OptionSteps(t) <= Steps(u) ==> OptionNumber(n, u, t) == Value(n * Power(1024, Steps(u) - OptionSteps(t)))
    ensures OptionSteps(t) > Steps(u) ==>
              && OptionNumber(n, u, t).Value?
              && Truncates(OptionNumber(n, u, t).number, n, Power(1024, OptionSteps(t) - Steps(u)))
  {
    var k, j := Steps(u), OptionSteps(t);
    PowersOf1024();
    assert Factor(u) == Power(1024, k) && Divisor(t) == Power(1024, j);
    hide Factor, Divisor, Power, Quotient;
    if j <= k {
      PowerSum(1024, k - j, j);
      SizesExact(n, u, t, Power(1024, k - j));
    } else {
      PowerSum(1024, k, j - k);
      PowerPositive(1024, k);
      PowerPositive(1024, j - k);
      SizesCompose(n, u, t);
      TruncatesReduced(OptionNumber(n, u, t).number, n, Power(1024, k), Power(1024, j - k));
    }
  }

  /** The option of the same unit. */
  function SameUnit(u: UnitName): Unit {
    match u
    case Kilobyte => Kilobytes
    case Megabyte => Megabytes
    case Gigabyte => Gigabytes
    case Terrabyte => Terabytes
    case _ => OtherUnit
  }

  /** The round trip: a size for an option of the same unit comes back unchanged, as long as its bytes fit. */
  lemma SameUnitUnchanged(n: int, u: UnitName)
    requires u.Kilobyte? || u.Megabyte? || u.Gigabyte? || u.Terrabyte?
    requires -0x8000_0000_0000_0000 <= n * Power(1024, Steps(u)) < 0x8000_0000_0000_0000
    ensures OptionNumber(n, u, SameUnit(u)) == Value(n)
  {
    SizesByPowers(n, u, SameUnit(u));
    assert Power(1024, 0) == 1;
  }

  /** Two sectors are a kilobyte. */
  lemma SectorsOption(n: int, u: UnitName)
    requires u.Kilobyte? || u.Megabyte? || u.Gigabyte? || u.Terrabyte?
    requires -0x8000_0000_0000_0000 <= n * Power(1024, Steps(u)) < 0x8000_0000_0000_0000
    ensures OptionNumber(n, u, Sectors) == Value(n * (2 * Power(1024, Steps(u) - 1)))
  {
    PowersOf1024();
    assert Factor(u) == Power(1024, Steps(u)) == 2 * Power(1024, Steps(u) - 1) * 512;
    hide Factor, Power, Quotient;
    SizesExact(n, u, Sectors, 2 * Power(1024, Steps(u) - 1));
  }

  /** A size for an option of any other unit ends the program; without a unit the option keeps the number as it is. */
  lemma SizesElsewhere(n: int, u: UnitName, t: Unit)
    requires u.Kilobyte? || u.Megabyte? || u.Gigabyte? || u.Terrabyte?
    requires t.NoUnit? || t.UnitMilliseconds? || t.UnitMicroseconds? || t.OtherUnit?
    ensures OptionNumber(n, u, t) == Exit
    ensures ConvertInt(NoUnit, t, n) == Value(n)
  {
  }

  /** An hour is 60 minutes, a minute 60 seconds, a second 1000 milliseconds, a millisecond 1000 microseconds. */
  lemma TimesByRatio(n: int)
    requires Fits(n * 60 * 60 * 1000 * 1000)
    ensures Convert(n, Hours) == Convert(n * 60, Minutes) == Convert(n * 60 * 60, Seconds)
    ensures Convert(n, Hours) == Convert(n * 60 * 60 * 1000, Milliseconds)
    ensures Convert(n, Hours) == Convert(n * 60 * 60 * 1000 * 1000, Microseconds)
    ensures Convert(n, Hours) == Converted(n * 60 * 60 * 1000 * 1000, UnitMicroseconds)
  {
  }

  /** An unknown unit gives no number. */
  lemma UnknownUnit(n: int, u: UnitName)
    ensures Convert(n, u).BadUnit? <==> u.OtherName?
  {
  }
}
