/**
 The proleptic Gregorian calendar of section 21.4.1 of ECMA-262: day numbers count from 1970-01-01,
 and `MakeDay` carries months and days that are out of range into the following or preceding ones.
 */
module Calendar {
  import opened Arithmetic

  datatype Date = Date(year: int, month: int, day: int)

  predicate IsLeap(y: int) {
    y % 4 == 0 && (y % 100 != 0 || y % 400 == 0)
  }

  function DaysInYear(y: int): int {
    if IsLeap(y) then 366 else 365
  }

  function DaysInMonth(y: int, m: int): int
    requires 1 <= m <= 12
  {
    if m == 2 then (if IsLeap(y) then 29 else 28)
    else if m in {4, 6, 9, 11} then 30 else 31
  }

  predicate ValidDate(d: Date) {
    1 <= d.month <= 12 && 1 <= d.day <= DaysInMonth(d.year, d.month)
  }

  /** The day number of 1 January of year `y`, counted year by year from 1970. */
  function DayFromYear(y: int): int
    decreases if y < 1970 then 1970 - y else y - 1970
  {
    if y == 1970 then 0
    else if y > 1970 then DayFromYear(y - 1) + DaysInYear(y - 1)
    else DayFromYear(y + 1) - DaysInYear(y)
  }

  /** Days of year `y` that precede month `m`. */
  function DaysBeforeMonth(y: int, m: int): int
    requires 1 <= m <= 12
  {
    if m == 1 then 0 else DaysBeforeMonth(y, m - 1) + DaysInMonth(y, m - 1)
  }

  /** `MakeDay`: `month0` counts from zero and need not be below 12; `day` need not exist in the month. */
  function MakeDay(year: int, month0: int, day: int): int {
    var y := year + month0 / 12;
    DayFromYear(y) + DaysBeforeMonth(y, month0 % 12 + 1) + day - 1
  }

  function DayNumber(d: Date): int
    requires 1 <= d.month <= 12
  {
    DayFromYear(d.year) + DaysBeforeMonth(d.year, d.month) + d.day - 1
  }

  /** On a month that is in range nothing is carried. */
  lemma MakeDayInRange(d: Date)
    requires 1 <= d.month <= 12
    ensures MakeDay(d.year, d.month - 1, d.day) == DayNumber(d)
  {
  }

  /** Twelve months carry into a year and days are simply added; with `MakeDayInRange` that decides every case. */
  lemma MakeDayCarries(year: int, month0: int, day: int, more: int)
    ensures MakeDay(year, month0 + 12, day) == MakeDay(year + 1, month0, day)
    ensures MakeDay(year, month0, day + more) == MakeDay(year, month0, day) + more
  {
    DivModUnique(month0 + 12, 12, month0 / 12 + 1, month0 % 12);
  }

  lemma YearLength(y: int)
    ensures DayFromYear(y + 1) == DayFromYear(y) + DaysInYear(y)
  {
  }

  /** The count agrees with the closed form `DayFromYear` of section 21.4.1.3 of ECMA-262. */
  lemma {:induction false} DayFromYearClosedForm(y: int)
    ensures DayFromYear(y) == 365 * (y - 1970) + (y - 1969) / 4 - (y - 1901) / 100 + (y - 1601) / 400
    decreases if y < 1970 then 1970 - y else y - 1970
  {
    if y > 1970 {
      DayFromYearClosedForm(y - 1);
      LeapStep(y - 1);
    } else if y < 1970 {
      DayFromYearClosedForm(y + 1);
      LeapStep(y);
    }
  }

  lemma LeapStep(y: int)
    ensures (y - 1968) / 4 - (y - 1900) / 100 + (y - 1600) / 400
         == (y - 1969) / 4 - (y - 1901) / 100 + (y - 1601) / 400 + (if IsLeap(y) then 1 else 0)
  {
    DivStep(y - 1969, 4);
    DivStep(y - 1901, 100);
    DivStep(y - 1601, 400);
    ModShift(y, 4, -492);
    ModShift(y, 100, -19);
    ModShift(y, 400, -4);
    FourDividesHundred(y);
  }

  lemma FourDividesHundred(y: int)
    ensures y % 100 == 0 ==> y % 4 == 0
    ensures y % 400 == 0 ==> y % 100 == 0
  {
    if y % 100 == 0 { DivModUnique(y, 4, 25 * (y / 100), 0); }
    if y % 400 == 0 { DivModUnique(y, 100, 4 * (y / 400), 0); }
  }

  lemma {:induction false} YearsOrdered(y: int, z: int)
    requires y <= z
    ensures DayFromYear(y) + 365 * (z - y) <= DayFromYear(z)
    decreases z - y
  {
    if y < z {
      YearsOrdered(y, z - 1);
      YearLength(z - 1);
    }
  }

  /** The year that holds day `n`, looked for one year at a time from `y`. */
  function YearFrom(n: int, y: int): (r: int)
    ensures DayFromYear(r) <= n < DayFromYear(r + 1)
    decreases if n < DayFromYear(y) then DayFromYear(y) - n + 366 else n - DayFromYear(y)
  {
    YearLength(y); YearLength(y - 1);
    if n < DayFromYear(y) then YearFrom(n, y - 1)
    else if DayFromYear(y + 1) <= n then YearFrom(n, y + 1)
    else y
  }

  function YearOfDay(n: int): (r: int)
    ensures DayFromYear(r) <= n < DayFromYear(r + 1)
  {
    YearFrom(n, 1970)
  }

  /** The month of year `y` that holds the day with index `k`, looked for from month `m` on. */
  function MonthFrom(y: int, k: int, m: int): (r: int)
    requires 1 <= m <= 12 && DaysBeforeMonth(y, m) <= k < DaysInYear(y)
    ensures 1 <= r <= 12
    ensures DaysBeforeMonth(y, r) <= k < DaysBeforeMonth(y, r) + DaysInMonth(y, r)
    decreases 12 - m
  {
    MonthsFillTheYear(y);
    if k < DaysBeforeMonth(y, m) + DaysInMonth(y, m) then m else MonthFrom(y, k, m + 1)
  }

  lemma MonthsFillTheYear(y: int)
    ensures DaysBeforeMonth(y, 12) + 31 == DaysInYear(y)
  {
    var leap := if IsLeap(y) then 1 else 0;
    assert DaysBeforeMonth(y, 2) == 31;
    assert DaysBeforeMonth(y, 3) == 59 + leap;
    assert DaysBeforeMonth(y, 4) == 90 + leap;
    assert DaysBeforeMonth(y, 6) == 151 + leap;
    assert DaysBeforeMonth(y, 8) == 212 + leap;
    assert DaysBeforeMonth(y, 10) == 273 + leap;
  }

  /** Where each month starts, by a formula that does not look at the months before it. */
  lemma {:induction false} DaysBeforeMonthClosedForm(y: int, m: int)
    requires 1 <= m <= 12
    ensures DaysBeforeMonth(y, m) == (367 * m - 362) / 12 + if m <= 2 then 0 else if IsLeap(y) then -1 else -2
  {
    if m > 1 { DaysBeforeMonthClosedForm(y, m - 1); }
  }

  lemma {:induction false} MonthsOrdered(y: int, m: int, k: int)
    requires 1 <= m < k <= 12
    ensures DaysBeforeMonth(y, m) + DaysInMonth(y, m) <= DaysBeforeMonth(y, k)
    decreases k
  {
    if m < k - 1 {
      MonthsOrdered(y, m, k - 1);
    }
  }

  /** The date of day number `n`. */
  function DateOfDay(n: int): (d: Date)
    ensures ValidDate(d)
    ensures d.year == YearOfDay(n)
  {
    var y := YearOfDay(n);
    YearLength(y);
    var k := n - DayFromYear(y);
    var m := MonthFrom(y, k, 1);
    Date(y, m, k - DaysBeforeMonth(y, m) + 1)
  }

  /** Converting a day number to a date and back is the identity. */
  lemma DayNumberOfDate(n: int)
    ensures DayNumber(DateOfDay(n)) == n
  {
  }

  /** A valid date lies inside its own year. */
  lemma DateInYear(d: Date)
    requires ValidDate(d)
    ensures DayFromYear(d.year) <= DayNumber(d) < DayFromYear(d.year + 1)
  {
    MonthsFillTheYear(d.year);
    YearLength(d.year);
    if d.month < 12 { MonthsOrdered(d.year, d.month, 12); }
    MonthStartsNonnegative(d.year, d.month);
  }

  lemma {:induction false} MonthStartsNonnegative(y: int, m: int)
    requires 1 <= m <= 12
    ensures DaysBeforeMonth(y, m) >= 0
  {
    if m > 1 { MonthStartsNonnegative(y, m - 1); }
  }

  /** Years hold disjoint ranges of day numbers. */
  lemma YearIsUnique(n: int, y: int)
    requires DayFromYear(y) <= n < DayFromYear(y + 1)
    ensures YearOfDay(n) == y
  {
    var r := YearOfDay(n);
    if r < y { YearsOrdered(r + 1, y); }
    if y < r { YearsOrdered(y + 1, r); }
  }

  lemma MonthIsUnique(y: int, m: int, m': int, k: int)
    requires 1 <= m <= 12 && 1 <= m' <= 12
    requires DaysBeforeMonth(y, m) <= k < DaysBeforeMonth(y, m) + DaysInMonth(y, m)
    requires DaysBeforeMonth(y, m') <= k < DaysBeforeMonth(y, m') + DaysInMonth(y, m')
    ensures m == m'
  {
    if m < m' { MonthsOrdered(y, m, m'); }
    if m' < m { MonthsOrdered(y, m', m); }
  }

  /** Converting a valid date to its day number and back is the identity. */
  lemma DateOfDayNumber(d: Date)
    requires ValidDate(d)
    ensures DateOfDay(DayNumber(d)) == d
  {
    var n := DayNumber(d);
    DateInYear(d);
    YearIsUnique(n, d.year);
    YearLength(d.year);
    var k := n - DayFromYear(d.year);
    MonthIsUnique(d.year, MonthFrom(d.year, k, 1), d.month, k);
  }

  /** Later days are in the same or a later year. */
  lemma YearMonotone(n: int, y: int)
    ensures n >= DayFromYear(y) <==> YearOfDay(n) >= y
  {
    var r := YearOfDay(n);
    if r < y { YearsOrdered(r + 1, y); } else { YearsOrdered(y, r); }
  }
}
