/** Proleptic Gregorian calendar dates as Python's `datetime.date` handles
    them: years 1 to 9999, day 1 of year 1 has ordinal 1 (`toordinal`), and
    adding days to a date goes through the ordinal (`fromordinal`). */
module Civil {

  datatype Date = Date(year: int, month: int, day: int)

  const MinYear := 1
  const MaxYear := 9999

  /** `date(9999, 12, 31).toordinal()`. */
  const MaxOrdinal := 3652059

  predicate IsLeap(y: int) { y % 4 == 0 && (y % 100 != 0 || y % 400 == 0) }

  function DaysInYear(y: int): int { if IsLeap(y) then 366 else 365 }

  function DaysInMonth(y: int, m: int): int
    requires 1 <= m <= 12
  {
    if m == 2 then (if IsLeap(y) then 29 else 28)
    else if m == 4 || m == 6 || m == 9 || m == 11 then 30
    else 31
  }

  /** The dates `datetime.date` accepts. */
  predicate Valid(d: Date)
  {
    MinYear <= d.year <= MaxYear && 1 <= d.month <= 12 && 1 <= d.day <= DaysInMonth(d.year, d.month)
  }

  /** Days of the years before `y` (CPython's `_days_before_year`). */
  function DaysBeforeYear(y: int): int
    requires y >= 1
  {
    var k := y - 1;
    365 * k + k / 4 - k / 100 + k / 400
  }

  /** Days of the months of year `y` before month `m` (`_days_before_month`). */
  function DaysBeforeMonth(y: int, m: int): int
    requires 1 <= m <= 12
  {
    [0, 31, 59, 90, 120, 151, 181, 212, 243, 273, 304, 334][m - 1] + (if m > 2 && IsLeap(y) then 1 else 0)
  }

  /** `date.toordinal()`. */
  function Ordinal(d: Date): int
    requires Valid(d)
  {
    DaysBeforeYear(d.year) + DaysBeforeMonth(d.year, d.month) + d.day
  }

  /** `date.weekday()`: Monday is 0 and Sunday is 6. */
  function Weekday(d: Date): (w: int)
    requires Valid(d)
    ensures 0 <= w < 7
  {
    (Ordinal(d) + 6) % 7
  }

  /** A year is as long as the calendar says: the ordinal of January 1 moves
      by 365 or 366 days from one year to the next. */
  lemma YearLength(y: int)
    requires y >= 1
    ensures DaysBeforeYear(y + 1) == DaysBeforeYear(y) + DaysInYear(y)
  {
    var a := y / 4 - (y - 1) / 4;
    var b := y / 100 - (y - 1) / 100;
    var c := y / 400 - (y - 1) / 400;
    NextQuarter(y);
    NextCentury(y);
    NextQuadricentury(y);
    Divisibility(y);
    assert a - b + c == (if IsLeap(y) then 1 else 0);
  }

  // The quotients by 4, 100 and 400 go up by one exactly at their multiples.

  lemma NextQuarter(y: int)
    ensures y / 4 - (y - 1) / 4 == (if y % 4 == 0 then 1 else 0)
  {
  }

  lemma NextCentury(y: int)
    ensures y / 100 - (y - 1) / 100 == (if y % 100 == 0 then 1 else 0)
  {
  }

  lemma NextQuadricentury(y: int)
    ensures y / 400 - (y - 1) / 400 == (if y % 400 == 0 then 1 else 0)
  {
  }

  /** Multiples of 400 are multiples of 100, which are multiples of 4. */
  lemma Divisibility(y: int)
    ensures y % 400 == 0 ==> y % 100 == 0
    ensures y % 100 == 0 ==> y % 4 == 0
  {
    if y % 400 == 0 {
      var q := y / 400;
      assert y == 400 * q;
      MultipleOfHundred(4 * q);
    }
    if y % 100 == 0 {
      var q := y / 100;
      assert y == 100 * q;
      MultipleOfFour(25 * q);
    }
  }

  lemma MultipleOfHundred(q: int)
    ensures (100 * q) % 100 == 0
  {
  }

  lemma MultipleOfFour(q: int)
    ensures (4 * q) % 4 == 0
  {
  }

  lemma {:induction false} DaysBeforeYearMonotone(a: int, b: int)
    requires 1 <= a <= b
    ensures DaysBeforeYear(a) + 365 * (b - a) <= DaysBeforeYear(b)
    decreases b - a
  {
    if a < b {
      YearLength(a);
      DaysBeforeYearMonotone(a + 1, b);
    }
  }

  /** Months sit back to back inside a year, and December ends the year. */
  lemma MonthLength(y: int, m: int)
    requires 1 <= m <= 12
    ensures m < 12 ==> DaysBeforeMonth(y, m + 1) == DaysBeforeMonth(y, m) + DaysInMonth(y, m)
    ensures m == 12 ==> DaysBeforeMonth(y, m) + DaysInMonth(y, m) == DaysInYear(y)
  {
  }

  lemma {:induction false} DaysBeforeMonthMonotone(y: int, a: int, b: int)
    requires 1 <= a <= b <= 12
    ensures DaysBeforeMonth(y, a) + 28 * (b - a) <= DaysBeforeMonth(y, b)
    decreases b - a
  {
    if a < b {
      MonthLength(y, a);
      DaysBeforeMonthMonotone(y, a + 1, b);
    }
  }

  /** The year that holds ordinal day `n`, searched upwards from `y`
      (`YearOfHolds`). */
  function YearOf(n: int, y: int): (r: int)
    requires y >= 1 && DaysBeforeYear(y) < n
    ensures r >= y
    decreases n - DaysBeforeYear(y)
  {
    YearLength(y);
    if n <= DaysBeforeYear(y + 1) then y else YearOf(n, y + 1)
  }

  lemma {:induction false} YearOfHolds(n: int, y: int)
    requires y >= 1 && DaysBeforeYear(y) < n
    ensures DaysBeforeYear(YearOf(n, y)) < n <= DaysBeforeYear(YearOf(n, y) + 1)
    decreases n - DaysBeforeYear(y)
  {
    YearLength(y);
    if n > DaysBeforeYear(y + 1) {
      YearOfHolds(n, y + 1);
    }
  }

  /** The month of year `y` that holds day `k` of that year, searched
      downwards from month `m` (`MonthOfHolds`). */
  function MonthOf(y: int, k: int, m: int): (r: int)
    requires 1 <= m <= 12 && 1 <= k <= DaysBeforeMonth(y, m) + DaysInMonth(y, m)
    ensures 1 <= r <= m
    decreases m
  {
    if DaysBeforeMonth(y, m) < k then m
    else
      MonthLength(y, m - 1);
      MonthOf(y, k, m - 1)
  }

  lemma {:induction false} MonthOfHolds(y: int, k: int, m: int)
    requires 1 <= m <= 12 && 1 <= k <= DaysBeforeMonth(y, m) + DaysInMonth(y, m)
    ensures DaysBeforeMonth(y, MonthOf(y, k, m)) < k <= DaysBeforeMonth(y, MonthOf(y, k, m)) + DaysInMonth(y, MonthOf(y, k, m))
    decreases m
  {
    if DaysBeforeMonth(y, m) >= k {
      MonthLength(y, m - 1);
      MonthOfHolds(y, k, m - 1);
    }
  }

  /** `date.fromordinal(n)`: the date whose ordinal is `n`
      (`FromOrdinalHolds`). */
  function FromOrdinal(n: int): (d: Date)
    requires 1 <= n <= MaxOrdinal
  {
    var y := YearOf(n, 1);
    YearOfHolds(n, 1);
    var k := n - DaysBeforeYear(y);
    YearLength(y);
    MonthLength(y, 12);
    var m := MonthOf(y, k, 12);
    Date(y, m, k - DaysBeforeMonth(y, m))
  }

  /** The date `fromordinal` gives is a valid date with ordinal `n`. */
  lemma FromOrdinalHolds(n: int)
    requires 1 <= n <= MaxOrdinal
    ensures Valid(FromOrdinal(n)) && Ordinal(FromOrdinal(n)) == n
  {
    var y := YearOf(n, 1);
    YearOfHolds(n, 1);
    YearOfBound(n);
    var k := n - DaysBeforeYear(y);
    YearLength(y);
    MonthLength(y, 12);
    MonthOfHolds(y, k, 12);
  }

  /** Ordinals up to `MaxOrdinal` fall in years up to `MaxYear`. */
  lemma YearOfBound(n: int)
    requires 1 <= n <= MaxOrdinal
    ensures YearOf(n, 1) <= MaxYear
  {
    var y := YearOf(n, 1);
    YearOfHolds(n, 1);
    if y > MaxYear {
      DaysBeforeYearMonotone(MaxYear + 1, y);
    }
  }

  /** Every valid date lies inside its year and month. */
  lemma OrdinalBounds(d: Date)
    requires Valid(d)
    ensures DaysBeforeYear(d.year) < Ordinal(d) <= DaysBeforeYear(d.year + 1)
    ensures 1 <= Ordinal(d) <= MaxOrdinal
  {
    YearLength(d.year);
    MonthLength(d.year, 12);
    DaysBeforeMonthMonotone(d.year, d.month, 12);
    if d.month < 12 {
      MonthLength(d.year, d.month);
    }
    DaysBeforeYearMonotone(1, d.year);
    DaysBeforeYearMonotone(d.year + 1, MaxYear + 1);
  }

  /** Every valid date has an ordinal from 1 to `MaxOrdinal`. */
  lemma OrdinalRange(d: Date)
    requires Valid(d)
    ensures 1 <= Ordinal(d) <= MaxOrdinal
  {
    OrdinalBounds(d);
  }

  /** Only one year holds a given ordinal day. */
  lemma YearUnique(n: int, y: int, z: int)
    requires y >= 1 && z >= 1
    requires DaysBeforeYear(y) < n <= DaysBeforeYear(y + 1)
    requires DaysBeforeYear(z) < n <= DaysBeforeYear(z + 1)
    ensures y == z
  {
    if y < z {
      DaysBeforeYearMonotone(y + 1, z);
    } else if z < y {
      DaysBeforeYearMonotone(z + 1, y);
    }
  }

  /** Only one month of a year holds a given day of that year. */
  lemma MonthUnique(y: int, k: int, a: int, b: int)
    requires 1 <= a <= 12 && 1 <= b <= 12
    requires DaysBeforeMonth(y, a) < k <= DaysBeforeMonth(y, a) + DaysInMonth(y, a)
    requires DaysBeforeMonth(y, b) < k <= DaysBeforeMonth(y, b) + DaysInMonth(y, b)
    ensures a == b
  {
    if a < b {
      MonthLength(y, a);
      DaysBeforeMonthMonotone(y, a + 1, b);
    } else if b < a {
      MonthLength(y, b);
      DaysBeforeMonthMonotone(y, b + 1, a);
    }
  }

  /** `date.fromordinal(d.toordinal()) == d`. */
  lemma FromOrdinalOrdinal(d: Date)
    requires Valid(d)
    ensures 1 <= Ordinal(d) <= MaxOrdinal && FromOrdinal(Ordinal(d)) == d
  {
    OrdinalBounds(d);
    var n := Ordinal(d);
    var e := FromOrdinal(n);
    FromOrdinalHolds(n);
    OrdinalBounds(e);
    YearUnique(n, d.year, e.year);
    var k := n - DaysBeforeYear(d.year);
    MonthUnique(d.year, k, d.month, e.month);
  }

  /** `toordinal` is one-to-one on valid dates. */
  lemma OrdinalInjective(d: Date, e: Date)
    requires Valid(d) && Valid(e)
    ensures Ordinal(d) == Ordinal(e) <==> d == e
  {
    if Ordinal(d) == Ordinal(e) {
      FromOrdinalOrdinal(d);
      FromOrdinalOrdinal(e);
    }
  }
}
