/** The parts of JavaScript's Date that the aggregator uses, with the host time zone taken
    to be UTC. A Date holds a time value: every Date built here falls on a midnight, so
    the value is kept as a whole number of days since 1970-01-01, or NaN (`None`). */
module JsDate {
  import opened Wrappers
  import opened Calendar
  import opened JsString

  /** Milliseconds in a day. */
  const MsPerDay: int := 86_400_000

  /** ECMAScript's TimeClip admits time values t with |t| <= 8.64e15 ms. */
  const MaxTime: int := 8_640_000_000_000_000

  /** The last representable day either side of 1970-01-01. */
  const MaxDay: int := 100_000_000

  /** TimeClip on a day number: the Date is kept when its time value in milliseconds is
      within MaxTime of the epoch, and is NaN otherwise. */
  function TimeClip(day: int): (t: Option<int>)
    ensures t.Some? <==> -MaxTime <= day * MsPerDay <= MaxTime
    ensures t.Some? ==> t.value == day
  {
    if -MaxDay <= day <= MaxDay then Some(day) else None
  }

  /** `new Date(year, month, date)` with a 0-based month, in local time (= UTC here): NaN
      if any argument is NaN; a year 0..99 means 1900..1999; months and days out of range
      carry over as in MakeDay; the result is clipped to the representable range. */
  function Construct(year: Option<int>, month: Option<int>, date: Option<int>): (t: Option<int>)
    ensures t.Some? ==> year.Some? && month.Some? && date.Some?
    ensures t.Some? ==> -MaxDay <= t.value <= MaxDay
  {
    if year.None? || month.None? || date.None? then None
    else
      var y := year.value;
      var fullYear := if 0 <= y <= 99 then 1900 + y else y;
      TimeClip(MakeDay(fullYear, month.value, date.value))
  }

  /** From the year 100 on, the constructor takes the year as it is. */
  lemma {:induction false} ConstructFullYear(y: int, m: int, d: int)
    requires y >= 100
    ensures Construct(Some(y), Some(m), Some(d)) == TimeClip(MakeDay(y, m, d))
  {
  }

  /** Two constructor calls from the year 100 on that MakeDay sends to the same day agree. */
  lemma {:induction false} SameDay(y0: int, m0: int, d0: int, y1: int, m1: int, d1: int)
    requires y0 >= 100 && y1 >= 100 && MakeDay(y0, m0, d0) == MakeDay(y1, m1, d1)
    ensures Construct(Some(y0), Some(m0), Some(d0)) == Construct(Some(y1), Some(m1), Some(d1))
  {
    ConstructFullYear(y0, m0, d0);
    ConstructFullYear(y1, m1, d1);
  }

  /** `new Date(y, m - 1, d)` with d past the end of month m is day d - length of the next
      month. */
  lemma {:induction false} ConstructCarriesDay(year: int, month: int, day: int)
    requires year >= 100 && 1 <= month <= 11
    ensures Construct(Some(year), Some(month - 1), Some(day))
      == Construct(Some(year), Some(month), Some(day - DaysInMonth(year, month)))
  {
    DayOverflow(year, month, day);
    SameDay(year, month - 1, day, year, month, day - DaysInMonth(year, month));
  }

  /** A day past the end of December is a day of January of the next year. */
  lemma {:induction false} ConstructCarriesYear(year: int, day: int)
    requires year >= 100
    ensures Construct(Some(year), Some(11), Some(day)) == Construct(Some(year + 1), Some(0), Some(day - 31))
  {
    DayOverflowDecember(year, day);
    SameDay(year, 11, day, year + 1, 0, day - 31);
  }

  /** Month 12 (0-based) is January of the next year. */
  lemma {:induction false} ConstructCarriesMonth(year: int, day: int)
    requires year >= 100
    ensures Construct(Some(year), Some(12), Some(day)) == Construct(Some(year + 1), Some(0), Some(day))
  {
    MonthOverflow(year, 0, day);
    SameDay(year, 12, day, year + 1, 0, day);
  }

  /** Every date of the years 100..275759 is representable (the last representable day,
      day 100,000,000, is 13 September 275760). */
  lemma {:induction false} RepresentableYears(c: CivilDate)
    requires IsValid(c) && 100 <= c.year <= 275759
    ensures -MaxDay < DayNumber(c) < MaxDay
  {
    DayNumberWithinYear(c);
    DayFromYearMonotone(100, c.year);
    DayFromYearMonotone(c.year + 1, 275760);
    assert DayFromYear(100) == -683003;
    assert DayFromYear(275760) == 99999744;
  }

  /** `new Date(y, m - 1, d)` of a valid date in the years 100..275759 is that date; a year
      argument of 0..99 names the same year of the 1900s. */
  lemma {:induction false} ConstructDate(y: int, year: int, month: int, day: int)
    requires IsValid(CivilDate(year, month, day)) && 100 <= year <= 275759
    requires y == year || (0 <= y <= 99 && year == 1900 + y)
    ensures Construct(Some(y), Some(month - 1), Some(day))
      == Some(DayNumber(CivilDate(year, month, day)))
  {
    MakeDayInYear(year, month, day);
    RepresentableYears(CivilDate(year, month, day));
  }

  /** `getDate()`: the day of the month, NaN for an invalid Date. */
  function DateOfMonth(t: Option<int>): (d: Option<int>)
    ensures d.Some? <==> t.Some?
    ensures d.Some? ==> 1 <= d.value <= 31
  {
    if t.None? then None else Some(CivilOf(t.value).day)
  }

  /** `setDate(dt)`: keep the year and month of t, make dt the day of the month (carrying
      over as in MakeDay) and clip. A NaN time value or a NaN argument gives NaN; setting
      the day a valid Date already has leaves it unchanged. */
  function SetDateValue(t: Option<int>, dt: Option<int>): (r: Option<int>)
    ensures r.Some? ==> t.Some? && dt.Some? && -MaxDay <= r.value <= MaxDay
    ensures t.Some? && -MaxDay <= t.value <= MaxDay && dt == DateOfMonth(t) ==> r == t
  {
    if t.None? || dt.None? then None
    else
      var c := CivilOf(t.value);
      assert (c.month - 1) / 12 == 0 && (c.month - 1) % 12 == c.month - 1;
      TimeClip(MakeDay(c.year, c.month - 1, dt.value))
  }

  /** `setDate(getDate() + 1)` moves a valid Date exactly one day on; it becomes NaN only
      when the Date was already the last representable day. */
  lemma {:induction false} SetDateNextDay(t: int)
    ensures SetDateValue(Some(t), Some(DateOfMonth(Some(t)).value + 1)) == TimeClip(t + 1)
  {
    DateOfMonthOf(t);
    SetDateSameArgument(t, Some(CivilOf(t).day));
    SetDateDayAfter(t);
  }

  /** getDate of a valid Date is the day field of its calendar date. */
  lemma {:induction false} DateOfMonthOf(t: int)
    ensures DateOfMonth(Some(t)) == Some(CivilOf(t).day)
  {
  }

  /** Any name for the value getDate returns leads setDate to the same day. */
  lemma {:induction false} SetDateSameArgument(t: int, day: Option<int>)
    requires day == DateOfMonth(Some(t))
    ensures SetDateValue(Some(t), Some(day.value + 1))
      == SetDateValue(Some(t), Some(DateOfMonth(Some(t)).value + 1))
  {
  }

  /** Setting the day field to one past the current day gives the next day number. */
  lemma {:induction false} SetDateDayAfter(t: int)
    ensures SetDateValue(Some(t), Some(CivilOf(t).day + 1)) == TimeClip(t + 1)
  {
    DayAfter(t);
  }

  /** The year as toISOString writes it: four digits for 0..9999, otherwise a sign and at
      least six digits. */
  function YearString(y: int): (s: string)
    ensures 0 <= y <= 9999 ==> |s| == 4 && AllDigits(s) && DigitsValue(s) == y
    ensures !(0 <= y <= 9999) ==>
      |s| >= 7 && s[0] == (if y < 0 then '-' else '+')
      && AllDigits(s[1..]) && DigitsValue(s[1..]) == (if y < 0 then -y else y)
  {
    assert Pow10(4) == 10000;
    if 0 <= y <= 9999 then ZeroPad(y, 4)
    else
      var sign := if y < 0 then "-" else "+";
      var digits := ZeroPad(if y < 0 then -y else y, 6);
      assert (sign + digits)[1..] == digits;
      sign + digits
  }

  /** The date part of toISOString: year, two-digit month and two-digit day, joined by `-`.
      It holds no `T`, so the ISO string's `T` is the first one. */
  function DateString(c: CivilDate): (s: string)
    requires IsValid(c)
    ensures 'T' !in s
    ensures |s| == |YearString(c.year)| + 6
  {
    var y, m, d := YearString(c.year), ZeroPad(c.month, 2), ZeroPad(c.day, 2);
    assert Pow10(2) == 100;
    DigitsExclude(m, 'T');
    DigitsExclude(d, 'T');
    assert 'T' !in y by {
      if 0 <= c.year <= 9999 {
        DigitsExclude(y, 'T');
      } else {
        DigitsExclude(y[1..], 'T');
        assert y == [y[0]] + y[1..];
      }
    }
    y + "-" + m + "-" + d
  }

  /** The time part of toISOString for a Date that falls on a midnight, after the `T`. */
  const Midnight: string := "00:00:00.000Z"

  /** `toISOString()`: a RangeError for NaN, otherwise the UTC date and time as
      YYYY-MM-DDTHH:mm:ss.sssZ; the time of day is always midnight here. */
  function IsoString(t: Option<int>): (r: Result<string, JsError>)
    ensures r.Failure? <==> t.None?
    ensures r.Failure? ==> r.error == RangeError
  {
    if t.None? then Failure(RangeError)
    else Success(DateString(CivilOf(t.value)) + ['T'] + Midnight)
  }

  /** The full-date form of section 5.6 of RFC 3339: `date-fullyear "-" date-month "-"
      date-mday` with 4, 2 and 2 digits. */
  predicate IsFullDate(s: string)
  {
    |s| == 10 && s[4] == '-' && s[7] == '-'
    && AllDigits(s[..4]) && AllDigits(s[5..7]) && AllDigits(s[8..])
  }

  /** For years 0..9999 the date part is an RFC 3339 full-date, and reading its three fields
      back with parseInt recovers the date. */
  lemma {:induction false} DateStringIsFullDate(c: CivilDate)
    requires IsValid(c) && 0 <= c.year <= 9999
    ensures IsFullDate(DateString(c))
    ensures var s := DateString(c);
      ParseInt(s[..4]) == Some(c.year) && ParseInt(s[5..7]) == Some(c.month)
      && ParseInt(s[8..]) == Some(c.day)
  {
    DateStringFields(c);
    ParsePadded(c.year, 4);
    ParsePadded(c.month, 2);
    ParsePadded(c.day, 2);
  }

  /** Where the fields of a four-digit-year date string sit. */
  lemma {:induction false} DateStringFields(c: CivilDate)
    requires IsValid(c) && 0 <= c.year <= 9999
    ensures var s := DateString(c);
      |s| == 10 && s[4] == '-' && s[7] == '-'
      && s[..4] == ZeroPad(c.year, 4) && s[5..7] == ZeroPad(c.month, 2)
      && s[8..] == ZeroPad(c.day, 2)
  {
    assert Pow10(2) == 100 && Pow10(4) == 10000;
    HyphenatedFields(ZeroPad(c.year, 4), ZeroPad(c.month, 2), ZeroPad(c.day, 2));
  }

  /** Where the three fields sit in `y-m-d` when they are 4, 2 and 2 characters long. */
  lemma {:induction false} HyphenatedFields(y: string, m: string, d: string)
    requires |y| == 4 && |m| == 2 && |d| == 2
    ensures var s := y + "-" + m + "-" + d;
      |s| == 10 && s[..4] == y && s[4] == '-' && s[5..7] == m && s[7] == '-' && s[8..] == d
  {
  }

  /** Splitting the ISO string at `T` and keeping the first piece gives the date part. */
  lemma {:induction false} IsoDatePart(c: CivilDate)
    requires IsValid(c)
    ensures Split(DateString(c) + ['T'] + Midnight, 'T')[0] == DateString(c)
  {
    SplitAfterPart(DateString(c), 'T', Midnight);
  }

  /** A Date object. Its time value is the state that `setDate` changes in place. */
  class DateObject {
    var time: Option<int>

    constructor (t: Option<int>)
      ensures time == t
    {
      time := t;
    }

    /** `getTime()`: the time value, NaN for an invalid Date. */
    function GetTime(): (t: Option<int>)
      reads this
      ensures t.None? <==> time.None?
      ensures t.Some? ==> t.value == time.value
    {
      time
    }

    /** `getDate()`: the day of the month of the held time value, NaN when it is NaN. */
    function GetDate(): (d: Option<int>)
      reads this
      ensures d.None? <==> time.None?
      ensures d.Some? ==> d.value == CivilOf(time.value).day && 1 <= d.value <= 31
    {
      DateOfMonth(time)
    }

    method SetDate(dt: Option<int>)
      modifies this
      ensures time == SetDateValue(old(time), dt)
    {
      time := SetDateValue(time, dt);
    }

    /** `toISOString()`: a RangeError for an invalid Date; otherwise a string whose part
        before the first `T` is the date of the held time value. */
    function ToISOString(): (r: Result<string, JsError>)
      reads this
      ensures r.Failure? <==> time.None?
      ensures r.Failure? ==> r.error == RangeError
      ensures r.Success? ==> Split(r.value, 'T')[0] == DateString(CivilOf(time.value))
    {
      if time.Some? then IsoDatePart(CivilOf(time.value)); IsoString(time)
      else IsoString(time)
    }
  }
}
