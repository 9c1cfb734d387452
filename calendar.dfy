/** The proleptic Gregorian calendar as JavaScript's Date sees it: a day is an integer
    count of days since 1970-01-01, and the year, month and day-of-month fields are
    derived from it the way ECMAScript's DayFromYear, YearFromTime, MonthFromTime,
    DateFromTime and MakeDay define them. Months in `CivilDate` are 1-based; the
    `month` argument of `MakeDay` is 0-based as in JavaScript. */
module Calendar {

  /** Leap years: divisible by 4, except centuries not divisible by 400. */
  predicate IsLeapYear(y: int)
  {
    y % 4 == 0 && (y % 100 != 0 || y % 400 == 0)
  }

  function DaysInYear(y: int): (n: int)
    ensures n == 365 || n == 366
  {
    if IsLeapYear(y) then 366 else 365
  }

  /** Day number of January 1 of year y (ECMAScript's DayFromYear): day 0 is 1 January
      1970, later years start on positive day numbers and earlier ones on negative ones. */
  function DayFromYear(y: int): (d: int)
    ensures d == 0 <==> y == 1970
    ensures d > 0 <==> y > 1970
  {
    365 * (y - 1970) + (y - 1969) / 4 - (y - 1901) / 100 + (y - 1601) / 400
  }

  /** Consecutive New Year's Days are one year length apart. */
  lemma {:induction false} YearLength(y: int)
    ensures DayFromYear(y + 1) == DayFromYear(y) + DaysInYear(y)
  {
    LeapStep4(y);
    LeapStep100(y);
    LeapStep400(y);
    CenturyDivides(y);
    assert DayFromYear(y + 1) - DayFromYear(y) == 365 + (if y % 4 == 0 then 1 else 0)
      - (if y % 100 == 0 then 1 else 0) + (if y % 400 == 0 then 1 else 0);
  }

  lemma {:induction false} CenturyDivides(y: int)
    ensures y % 400 == 0 ==> y % 100 == 0
    ensures y % 100 == 0 ==> y % 4 == 0
  {
    if y % 400 == 0 {
      assert y == 400 * (y / 400);
      assert y == 100 * (4 * (y / 400));
    }
    if y % 100 == 0 {
      assert y == 100 * (y / 100);
      assert y == 4 * (25 * (y / 100));
    }
  }

  lemma {:induction false} LeapStep4(y: int)
    ensures (y - 1968) / 4 - (y - 1969) / 4 == (if y % 4 == 0 then 1 else 0)
  {
  }

  lemma {:induction false} LeapStep100(y: int)
    ensures (y - 1900) / 100 - (y - 1901) / 100 == (if y % 100 == 0 then 1 else 0)
  {
  }

  lemma {:induction false} LeapStep400(y: int)
    ensures (y - 1600) / 400 - (y - 1601) / 400 == (if y % 400 == 0 then 1 else 0)
  {
  }

  /** Years are at least 365 days long, so DayFromYear is strictly increasing. */
  lemma {:induction false} DayFromYearMonotone(a: int, b: int)
    requires a <= b
    ensures DayFromYear(a) + 365 * (b - a) <= DayFromYear(b)
    decreases b - a
  {
    if a < b {
      DayFromYearMonotone(a, b - 1);
      YearLength(b - 1);
    }
  }

  /** The year that contains day t (ECMAScript's YearFromTime): the last year whose
      January 1 is not after t. */
  function YearOf(t: int): (y: int)
    ensures DayFromYear(y) <= t < DayFromYear(y + 1)
  {
    if t >= DayFromYear(1970) then YearAtOrAfter(t, 1970) else YearBefore(t, 1969)
  }

  function YearAtOrAfter(t: int, y: int): (r: int)
    requires DayFromYear(y) <= t
    ensures DayFromYear(r) <= t < DayFromYear(r + 1)
    decreases t - DayFromYear(y)
  {
    YearLength(y);
    if t < DayFromYear(y + 1) then y else YearAtOrAfter(t, y + 1)
  }

  function YearBefore(t: int, y: int): (r: int)
    requires t < DayFromYear(y + 1)
    ensures DayFromYear(r) <= t < DayFromYear(r + 1)
    decreases DayFromYear(y + 1) - t
  {
    YearLength(y);
    if DayFromYear(y) <= t then y else YearBefore(t, y - 1)
  }

  /** Only one year contains a given day. */
  lemma {:induction false} YearOfUnique(t: int, y: int)
    requires DayFromYear(y) <= t < DayFromYear(y + 1)
    ensures YearOf(t) == y
  {
    var r := YearOf(t);
    if r < y {
      LaterYearStartsLater(t, r, y);
    } else if r > y {
      LaterYearStartsLater(t, y, r);
    }
  }

  /** A day of year a comes before the start of every later year. */
  lemma {:induction false} LaterYearStartsLater(t: int, a: int, b: int)
    requires a < b
    requires t < DayFromYear(a + 1)
    ensures t < DayFromYear(b)
  {
    DayFromYearMonotone(a + 1, b);
  }

  /** Length of month m of year y: thirty days hath September, April, June and November;
      February has 29 days in a leap year and 28 otherwise; the rest have 31. */
  function DaysInMonth(y: int, m: int): (n: int)
    requires 1 <= m <= 12
    ensures 28 <= n <= 31
  {
    if m == 2 then (if IsLeapYear(y) then 29 else 28)
    else if m == 4 || m == 6 || m == 9 || m == 11 then 30
    else 31
  }

  /** Days of year y that precede the first day of month m (1-based; m == 13 counts the
      whole year). */
  function DaysBeforeMonth(y: int, m: int): int
    requires 1 <= m <= 13
  {
    if m == 1 then 0 else DaysBeforeMonth(y, m - 1) + DaysInMonth(y, m - 1)
  }

  /** The twelve months add up to the year. */
  lemma {:induction false} MonthsFillYear(y: int)
    ensures DaysBeforeMonth(y, 13) == DaysInYear(y)
  {
    var leap := if IsLeapYear(y) then 1 else 0;
    assert DaysBeforeMonth(y, 2) == 31;
    assert DaysBeforeMonth(y, 3) == 59 + leap;
    assert DaysBeforeMonth(y, 4) == 90 + leap;
    assert DaysBeforeMonth(y, 5) == 120 + leap;
    assert DaysBeforeMonth(y, 6) == 151 + leap;
    assert DaysBeforeMonth(y, 7) == 181 + leap;
    assert DaysBeforeMonth(y, 8) == 212 + leap;
    assert DaysBeforeMonth(y, 9) == 243 + leap;
    assert DaysBeforeMonth(y, 10) == 273 + leap;
    assert DaysBeforeMonth(y, 11) == 304 + leap;
    assert DaysBeforeMonth(y, 12) == 334 + leap;
  }

  /** Later months start later. */
  lemma {:induction false} DaysBeforeMonthMonotone(y: int, a: int, b: int)
    requires 1 <= a <= b <= 13
    ensures DaysBeforeMonth(y, a) + 28 * (b - a) <= DaysBeforeMonth(y, b)
    decreases b - a
  {
    if a < b { DaysBeforeMonthMonotone(y, a, b - 1); }
  }

  /** The month that contains day-of-year `doy` (ECMAScript's MonthFromTime, 1-based). */
  function MonthOf(y: int, doy: int): (m: int)
    requires 0 <= doy < DaysInYear(y)
    ensures 1 <= m <= 12
    ensures DaysBeforeMonth(y, m) <= doy < DaysBeforeMonth(y, m + 1)
  {
    MonthsFillYear(y);
    MonthAtOrAfter(y, doy, 1)
  }

  function MonthAtOrAfter(y: int, doy: int, m: int): (r: int)
    requires 1 <= m <= 12
    requires DaysBeforeMonth(y, m) <= doy < DaysInYear(y)
    ensures m <= r <= 12
    ensures DaysBeforeMonth(y, r) <= doy < DaysBeforeMonth(y, r + 1)
    decreases 12 - m
  {
    MonthsFillYear(y);
    if doy < DaysBeforeMonth(y, m + 1) || m == 12 then m else MonthAtOrAfter(y, doy, m + 1)
  }

  /** Only one month contains a given day of the year. */
  lemma {:induction false} MonthOfUnique(y: int, doy: int, m: int)
    requires 1 <= m <= 12
    requires DaysBeforeMonth(y, m) <= doy < DaysBeforeMonth(y, m + 1)
    ensures 0 <= doy < DaysInYear(y)
    ensures MonthOf(y, doy) == m
  {
    DaysBeforeMonthMonotone(y, 1, m);
    DaysBeforeMonthMonotone(y, m + 1, 13);
    MonthsFillYear(y);
    var r := MonthOf(y, doy);
    if r < m {
      DaysBeforeMonthMonotone(y, r + 1, m);
    } else if r > m {
      DaysBeforeMonthMonotone(y, m + 1, r);
    }
  }

  /** A calendar date: year, month 1..12 and day of month. */
  datatype CivilDate = CivilDate(year: int, month: int, day: int)

  predicate IsValid(c: CivilDate)
  {
    1 <= c.month <= 12 && 1 <= c.day <= DaysInMonth(c.year, c.month)
  }

  /** Days from 1970-01-01 to the date with these fields; the day may run past either end
      of the month. */
  function DayNumber(c: CivilDate): int
    requires 1 <= c.month <= 12
  {
    DayFromYear(c.year) + DaysBeforeMonth(c.year, c.month) + c.day - 1
  }

  /** ECMAScript's MakeDay: the day number of `date` counted from the first of month
      `month` (0-based) of `year`. Months outside 0..11 carry into the year, twelve at a
      time, and days outside the month carry into the neighbouring months, as
      `new Date(y, m, d)` does. The result is ECMAScript's closed form: the year
      `year + floor(month / 12)` and the 0-based month `month modulo 12`. */
  function MakeDay(year: int, month: int, date: int): (day: int)
    ensures day == DayNumber(CivilDate(year + month / 12, month % 12 + 1, date))
    decreases if month < 0 then 12 - month else month
  {
    if month < 0 then
      FloorShift(month);
      MakeDay(year - 1, month + 12, date)
    else if month >= 12 then
      FloorShift(month - 12);
      MakeDay(year + 1, month - 12, date)
    else
      assert month / 12 == 0 && month % 12 == month;
      DayNumber(CivilDate(year, month + 1, date))
  }

  /** Twelve more months is one more year and the same month. */
  lemma {:induction false} FloorShift(month: int)
    ensures (month + 12) / 12 == month / 12 + 1 && (month + 12) % 12 == month % 12
  {
  }

  /** Within months 1..12 MakeDay carries nothing. */
  lemma {:induction false} MakeDayInYear(year: int, m: int, date: int)
    requires 1 <= m <= 12
    ensures MakeDay(year, m - 1, date) == DayNumber(CivilDate(year, m, date))
  {
  }

  /** A valid date's day number lies within its year. */
  lemma {:induction false} DayNumberWithinYear(c: CivilDate)
    requires IsValid(c)
    ensures DayFromYear(c.year) <= DayNumber(c) < DayFromYear(c.year + 1)
  {
    YearLength(c.year);
    MonthsFillYear(c.year);
    DaysBeforeMonthMonotone(c.year, 1, c.month);
    DaysBeforeMonthMonotone(c.year, c.month + 1, 13);
    assert DaysBeforeMonth(c.year, c.month + 1)
      == DaysBeforeMonth(c.year, c.month) + DaysInMonth(c.year, c.month);
  }

  /** The calendar fields of day t (ECMAScript's YearFromTime, MonthFromTime and
      DateFromTime); they number back to t. */
  function CivilOf(t: int): (c: CivilDate)
    ensures IsValid(c)
    ensures DayNumber(c) == t
  {
    var y := YearOf(t);
    YearLength(y);
    var doy := t - DayFromYear(y);
    var m := MonthOf(y, doy);
    CivilDate(y, m, doy - DaysBeforeMonth(y, m) + 1)
  }

  /** The other half of the round trip: a valid date's day number has that date as its
      fields. */
  lemma {:induction false} CivilOfDayNumber(c: CivilDate)
    requires IsValid(c)
    ensures CivilOf(DayNumber(c)) == c
  {
    var t := DayNumber(c);
    var doy := DaysBeforeMonth(c.year, c.month) + c.day - 1;
    MonthOfUnique(c.year, doy, c.month);
    YearLength(c.year);
    YearOfUnique(t, c.year);
  }

  /** The calendar day after c: the next day of the month, else the first of the next
      month, else January 1 of the next year. */
  function Succ(c: CivilDate): (n: CivilDate)
    requires IsValid(c)
    ensures IsValid(n)
  {
    if c.day < DaysInMonth(c.year, c.month) then CivilDate(c.year, c.month, c.day + 1)
    else if c.month < 12 then CivilDate(c.year, c.month + 1, 1)
    else CivilDate(c.year + 1, 1, 1)
  }

  /** The next calendar day is numbered one higher. */
  lemma {:induction false} SuccDayNumber(c: CivilDate)
    requires IsValid(c)
    ensures DayNumber(Succ(c)) == DayNumber(c) + 1
  {
    if c.day == DaysInMonth(c.year, c.month) && c.month == 12 {
      YearLength(c.year);
      MonthsFillYear(c.year);
    }
  }

  /** Adding one to a day number is the calendar's next day, with month, year and
      leap-year rollover. */
  lemma {:induction false} NextDay(t: int)
    ensures CivilOf(t + 1) == Succ(CivilOf(t))
  {
    CivilOfSucc(CivilOf(t), t);
  }

  /** The day after a valid date has that date's successor as its fields. */
  lemma {:induction false} CivilOfSucc(c: CivilDate, t: int)
    requires IsValid(c) && DayNumber(c) == t
    ensures CivilOf(t + 1) == Succ(c)
  {
    SuccDayNumber(c);
    CivilOfDayNumber(Succ(c));
  }

  /** Setting the day of month to one more than the current one (what `setDate(getDate() + 1)`
      asks for) lands on the next day number. */
  lemma {:induction false} DayAfter(t: int)
    ensures var c := CivilOf(t); MakeDay(c.year, c.month - 1, c.day + 1) == t + 1
  {
    var c := CivilOf(t);
    MakeDayInYear(c.year, c.month, c.day + 1);
  }

  /** A day past the end of month m (1-based, January to November) carries into month
      m + 1: `new Date(2024, 1, 31)` is March 2. */
  lemma {:induction false} DayOverflow(year: int, m: int, date: int)
    requires 1 <= m <= 11
    ensures MakeDay(year, m - 1, date) == MakeDay(year, m, date - DaysInMonth(year, m))
  {
    MakeDayInYear(year, m, date);
    MakeDayInYear(year, m + 1, date - DaysInMonth(year, m));
  }

  /** A day past the end of December carries into January of the next year. */
  lemma {:induction false} DayOverflowDecember(year: int, date: int)
    ensures MakeDay(year, 11, date) == MakeDay(year + 1, 0, date - 31)
  {
    YearLength(year);
    MonthsFillYear(year);
    assert DaysBeforeMonth(year, 13) == DaysBeforeMonth(year, 12) + 31;
  }

  /** A month past December carries into the next year. */
  lemma {:induction false} MonthOverflow(year: int, month: int, date: int)
    ensures MakeDay(year, month + 12, date) == MakeDay(year + 1, month, date)
  {
    FloorShift(month);
  }
}
