/** The proleptic Gregorian calendar of ISO 8601, as Python's `datetime.date`
    counts it: ordinal 1 is 0001-01-01, and the supported dates are the years
    1 to 9999.  A partition's calendar date and its `y%Y/m%m/d%d` path are
    derived from a day index through these functions. */
module Calendar {

  /** Ordinal of 1970-01-01, the epoch of the millisecond timestamps. */
  const EPOCH_ORDINAL: int := 719163
  /** Ordinal of 9999-12-31, the last date Python's datetime accepts. */
  const MAX_ORDINAL: int := 3652059

  const DAYS_IN_400_YEARS: int := 146097
  const DAYS_IN_100_YEARS: int := 36524
  const DAYS_IN_4_YEARS: int := 1461

  datatype Date = Date(year: int, month: int, day: int)

  predicate IsLeap(y: int) {
    y % 4 == 0 && (y % 100 != 0 || y % 400 == 0)
  }

  function DaysInMonth(y: int, m: int): int
    requires 1 <= m <= 12
  {
    if m == 2 then (if IsLeap(y) then 29 else 28)
    else if m == 4 || m == 6 || m == 9 || m == 11 then 30
    else 31
  }

  /** Days of year `y` before the first of month `m`. */
  function DaysBeforeMonth(y: int, m: int): int
    requires 1 <= m <= 12
  {
    var common :=
      if m == 1 then 0 else if m == 2 then 31 else if m == 3 then 59
      else if m == 4 then 90 else if m == 5 then 120 else if m == 6 then 151
      else if m == 7 then 181 else if m == 8 then 212 else if m == 9 then 243
      else if m == 10 then 273 else if m == 11 then 304 else 334;
    common + (if m > 2 && IsLeap(y) then 1 else 0)
  }

  /** Days before January 1st of year `y`, counted from 0001-01-01. */
  function DaysBeforeYear(y: int): int {
    var p := y - 1;
    365 * p + p / 4 - p / 100 + p / 400
  }

  predicate ValidDate(d: Date) {
    1 <= d.month <= 12 && 1 <= d.day <= DaysInMonth(d.year, d.month)
  }

  function Ordinal(d: Date): int
    requires 1 <= d.month <= 12
  {
    DaysBeforeYear(d.year) + DaysBeforeMonth(d.year, d.month) + d.day
  }

  /** The month of year `y` in which day-of-year `doy` (0-based) falls,
      searching downwards from month `m`. */
  function MonthOf(y: int, doy: int, m: int): (r: int)
    requires 1 <= m <= 12 && 0 <= doy
    ensures 1 <= r <= m
  {
    if m == 1 || DaysBeforeMonth(y, m) <= doy then m else MonthOf(y, doy, m - 1)
  }

  /** The month found is the last one starting on or before `doy`. */
  lemma {:induction false} MonthOfBounds(y: int, doy: int, m: int)
    requires 1 <= m <= 12 && 0 <= doy
    ensures var r := MonthOf(y, doy, m);
            DaysBeforeMonth(y, r) <= doy && (r < m ==> doy < DaysBeforeMonth(y, r + 1))
  {
    if !(m == 1 || DaysBeforeMonth(y, m) <= doy) {
      MonthOfBounds(y, doy, m - 1);
    }
  }

  /** Python's `_days_before_year` closed form for a year written in
      400/100/4/1-year cycles. */
  lemma DaysBeforeCycles(a: int, b: int, c: int, e: int)
    requires 0 <= b <= 3 && 0 <= c <= 24 && 0 <= e <= 3
    ensures DaysBeforeYear(400 * a + 100 * b + 4 * c + e + 1)
            == DAYS_IN_400_YEARS * a + DAYS_IN_100_YEARS * b + DAYS_IN_4_YEARS * c + 365 * e
  {
    var p := 400 * a + 100 * b + 4 * c + e;
    assert p == 4 * (100 * a + 25 * b + c) + e;
    assert p / 4 == 100 * a + 25 * b + c;
    assert p == 100 * (4 * a + b) + (4 * c + e);
    assert p / 100 == 4 * a + b;
    assert p == 400 * a + (100 * b + 4 * c + e);
    assert p / 400 == a;
  }

  /** The calendar date of an ordinal, by splitting it into 400-, 100-, 4-
      and 1-year cycles (the decomposition Python's `date.fromordinal` uses). */
  function FromOrdinal(n: int): (r: Date)
    ensures 1 <= r.month <= 12 && 1 <= r.day
  {
    var n0 := n - 1;
    var a := n0 / DAYS_IN_400_YEARS;
    var r400 := n0 % DAYS_IN_400_YEARS;
    var b := r400 / DAYS_IN_100_YEARS;
    var r100 := r400 % DAYS_IN_100_YEARS;
    var c := r100 / DAYS_IN_4_YEARS;
    var r4 := r100 % DAYS_IN_4_YEARS;
    var e := r4 / 365;
    var doy := r4 % 365;
    var year := 400 * a + 100 * b + 4 * c + e + 1;
    if e == 4 || b == 4 then
      // the last day of a leap year closing a 4- or 400-year cycle
      Date(year - 1, 12, 31)
    else
      var m := MonthOf(year, doy, 12);
      MonthOfBounds(year, doy, 12);
      Date(year, m, doy - DaysBeforeMonth(year, m) + 1)
  }

  /** `FromOrdinal` inverts `Ordinal` and yields a real calendar date. */
  lemma FromOrdinalInverts(n: int)
    ensures ValidDate(FromOrdinal(n)) && Ordinal(FromOrdinal(n)) == n
  {
    var n0 := n - 1;
    var a := n0 / DAYS_IN_400_YEARS;
    var r400 := n0 % DAYS_IN_400_YEARS;
    var b := r400 / DAYS_IN_100_YEARS;
    var r100 := r400 % DAYS_IN_100_YEARS;
    var c := r100 / DAYS_IN_4_YEARS;
    var r4 := r100 % DAYS_IN_4_YEARS;
    var e := r4 / 365;
    var doy := r4 % 365;
    if e == 4 || b == 4 {
      LastDayOfCycle(a, b, c, e, r400, r100, r4);
    } else {
      var year := 400 * a + 100 * b + 4 * c + e + 1;
      DaysBeforeCycles(a, b, c, e);
      MonthOfBounds(year, doy, 12);
    }
  }

  /** The last day of a 400-year cycle is December 31st of a leap year. */
  lemma EndOf400Years(a: int)
    ensures IsLeap(400 * a + 400)
    ensures DaysBeforeYear(400 * a + 400) + 366 == DAYS_IN_400_YEARS * (a + 1)
  {
    var y := 400 * (a + 1);
    assert 400 * a + 400 == y;
    assert IsLeap(y) by {
      assert y == 4 * (100 * (a + 1));
    }
    DaysBeforeCycles(a, 3, 24, 3);
  }

  /** The last day of a 4-year cycle that does not close a century is
      December 31st of a leap year. */
  lemma EndOf4Years(a: int, b: int, c: int)
    requires 0 <= b <= 3 && 0 <= c <= 23
    ensures IsLeap(400 * a + 100 * b + 4 * c + 4)
    ensures DaysBeforeYear(400 * a + 100 * b + 4 * c + 4) + 366
            == DAYS_IN_400_YEARS * a + DAYS_IN_100_YEARS * b + DAYS_IN_4_YEARS * (c + 1)
  {
    var y := 400 * a + 100 * b + 4 * c + 4;
    assert IsLeap(y) by {
      assert y == 4 * (100 * a + 25 * b + c + 1);
      assert y == 100 * (4 * a + b) + 4 * (c + 1);
      assert y % 100 == 4 * (c + 1);
    }
    DaysBeforeCycles(a, b, c, 3);
  }

  /** The two cycle-closing cases of `FromOrdinal`: the day is December 31st
      of a leap year. */
  lemma LastDayOfCycle(a: int, b: int, c: int, e: int, r400: int, r100: int, r4: int)
    requires 0 <= r400 < DAYS_IN_400_YEARS && b == r400 / DAYS_IN_100_YEARS
    requires r100 == r400 % DAYS_IN_100_YEARS
    requires c == r100 / DAYS_IN_4_YEARS && r4 == r100 % DAYS_IN_4_YEARS && e == r4 / 365
    requires e == 4 || b == 4
    ensures var y := 400 * a + 100 * b + 4 * c + e;
            IsLeap(y) && DaysBeforeYear(y) + 335 + 31
                         == DAYS_IN_400_YEARS * a + r400 + 1
  {
    if b == 4 {
      assert r400 == 146096 && c == 0 && e == 0;
      EndOf400Years(a);
    } else {
      assert r4 == 1460 && c <= 23;
      EndOf4Years(a, b, c);
    }
  }


  /** The dates Python's datetime can represent, as days since the epoch. */
  predicate InDatetimeRange(day: int) {
    1 <= day + EPOCH_ORDINAL <= MAX_ORDINAL
  }

  /** The UTC calendar date of the day `day` days after 1970-01-01. */
  function DateOfDay(day: int): (r: Date)
    ensures 1 <= r.month <= 12 && 1 <= r.day
  {
    FromOrdinal(day + EPOCH_ORDINAL)
  }

  /** The date of a day is a real calendar date, `day` days after the epoch's. */
  lemma DateOfDayInverts(day: int)
    ensures ValidDate(DateOfDay(day)) && Ordinal(DateOfDay(day)) - EPOCH_ORDINAL == day
  {
    FromOrdinalInverts(day + EPOCH_ORDINAL);
  }

  /** Every representable day has a year of at least 1. */
  lemma YearPositive(day: int)
    requires InDatetimeRange(day)
    ensures DateOfDay(day).year >= 1
  {
    var n0 := day + EPOCH_ORDINAL - 1;
    assert n0 / DAYS_IN_400_YEARS >= 0;
  }
}
