# Heatmap aggregation of a Notion database

The `/api/database` endpoint queries a Notion database and turns its pages into the data of a
heatmap. This project models the part that runs after the query. `processData` walks over the
pages and keeps those whose `Date` property is present and whose checkbox property is ticked.
It reads each kept page's `created_time` with `parseDate`, a `YYYY/MM/DD` reader built from
`split('/')`, `parseInt` and `new Date(y, m - 1, d)`. It moves that date one day on with
`setDate(getDate() + 1)` and keeps the part of `toISOString()` before the `T`. It records
`true` under that string in a `Map`, then returns the Map's entries as `{date, isChecked}`
objects, in insertion order.

The model is split into modules that follow the JavaScript facilities the code relies on:

- `Wrappers` (wrappers.dfy) defines `Option`, `Result` and the two exceptions that can escape
  the loop, `TypeError` and `RangeError`.
- `JsString` (jsstring.dfy) models `String.prototype.split` on one character and
  `parseInt(s, 10)`. `parseInt` skips leading white space, takes an optional sign and reads the
  longest run of decimal digits; with no digits the result is NaN (`None`). The module also
  models decimal printing with zero padding.
- `Calendar` (calendar.dfy) is the proleptic Gregorian calendar of ECMAScript. It has
  DayFromYear, the year and month of a day number (YearFromTime and MonthFromTime), MakeDay with
  carry of months and days, civil date from day number and back, and the successor of a date.
- `JsDate` (jsdate.dfy) models `Date`. A time value is kept as whole days since 1970-01-01, or
  NaN. The model covers TimeClip, `new Date(y, m, d)` with its 0..99 year rule, `getDate`,
  `setDate` and `toISOString`. The class `DateObject` holds the time value that `setDate`
  changes in place.
- `JsMap` (jsmap.dfy) models `Map` as the class `OrderedMap`: a sequence of distinct keys in
  insertion order plus a value per key. `set` appends a new key and leaves an existing key where
  it is. `Array.from` reads the entries in key order.
- `Database` (database.dfy) holds `parseDate` as the function `ParseDate`. The callback for one
  page is the method `ProcessPage`, and its meaning is the function `Classify`. `processData` is
  the method `ProcessData`: a loop that fills an `OrderedMap` in place. It is proved equal to
  the specification function `Aggregate`, which is built from `Classify` and `Collect`.

A page is `Page(properties)` with `properties` absent or a map from property names to
`Property(createdTime, checkbox)`. An iteration of the loop has one of three outcomes:

- it admits a date;
- it skips the page, either because the page fails the filter or because its timestamp does
  not parse (the source logs this on the console);
- it throws.

Throwing aborts `processData`. That happens on a page without `properties`, on a selected page
without `created_time`, and on a selected page dated on the last day a `Date` can hold. In the
last case `setDate` makes the Date invalid and `toISOString` raises a `RangeError`.

`parseDate` splits on `/`. A timestamp in ISO 8601 form such as `2024-03-14T09:30:00.000Z`
therefore never parses: such a page is skipped and contributes nothing
(`SkipsTimestampWithoutSlashes`). The endpoint only produces dates when `created_time` is
written with slashes.

## Model

| member | source | states |
|---|---|---|
| JsString.Split | api/database.js:61 | `split` on one character: the number of pieces is one more than the number of separators, no piece contains the separator, and joining the pieces with it gives the string back |
| JsString.SplitJoin | api/database.js:61 | splitting a join of separator-free pieces returns those pieces |
| JsString.SplitThree | api/database.js:61-62 | three separator-free fields joined by the separator split into exactly three pieces, the fields themselves |
| JsString.SplitAfterPart | api/database.js:48 | a separator-free prefix followed by the separator is the first piece of the split |
| JsString.SplitWithoutSeparator | api/database.js:61 | a string without the separator splits into itself alone |
| JsString.CountAbsent | api/database.js:61-62 | a string without the separator has no separators to count |
| JsString.TrimStart | api/database.js:63-65 | `parseInt` drops a prefix made only of white space, and what remains does not start with white space |
| JsString.LeadingDigits | api/database.js:63-65 | the digits `parseInt` reads form the longest all-digit prefix |
| JsString.ParseInt | api/database.js:63-65 | `parseInt(s, 10)`: a string without any decimal digit is NaN, a negative result needs a `-` in the string, and a string that starts with a digit reads as a number of at least zero, with no white space to skip |
| JsString.ParseSigned | api/database.js:63-65 | what `parseInt` reads after the white space: no digit gives NaN, only a leading `-` gives a negative value, a leading digit gives a number of at least zero |
| JsString.ParseIntZeroPad | api/database.js:63-65 | `parseInt` of a zero-padded decimal numeral followed by a non-digit is the number |
| JsString.ParsePadded | api/database.js:63-65 | `parseInt` reads a zero-padded numeral back as its value |
| JsString.ParseSignedDigits | api/database.js:63-65 | a digit run followed by a non-digit is read as its decimal value |
| JsString.ParseIntNegative | api/database.js:63-65 | a leading minus sign negates the value read |
| JsString.ParseSignedMinus | api/database.js:63-65 | after a minus sign a digit run is read and negated |
| JsString.ParseIntNaN | api/database.js:63-65 | without a digit after the white space and the sign, `parseInt` gives NaN |
| JsString.ParseIntSkipsWhiteSpace | api/database.js:63-65 | a leading white-space character does not change what `parseInt` reads |
| JsString.TrimStartStops | api/database.js:63-65 | a string that starts with a non-white-space character is not trimmed |
| JsString.LeadingDigitsOf | api/database.js:63-65 | the digit run before a non-digit is exactly what is read |
| JsString.DecimalString | api/database.js:48 | the decimal numeral of n consists of digits, has value n, and has no leading zero |
| JsString.DecimalStringLength | api/database.js:48 | a numeral fits in k characters exactly when n < 10^k |
| JsString.ZeroPad | api/database.js:48 | the padded numeral consists of digits with value n and has exactly the requested width when n fits in it |
| JsString.Zeros | api/database.js:48 | k zero digits |
| JsString.LeadingZerosValue | api/database.js:48 | leading zeros do not change the value of a numeral |
| JsString.DigitsExclude | api/database.js:48 | a numeral contains no non-digit character such as `/` or `T` |
| Calendar.DaysInYear | api/database.js:66 | a year has 365 or 366 days |
| Calendar.DayFromYear | api/database.js:66 | ECMAScript's DayFromYear: 1 January 1970 is day 0, later years start on positive days and earlier years on negative ones |
| Calendar.YearLength | api/database.js:66 | consecutive years start DaysInYear days apart, so DayFromYear agrees with the Gregorian leap rule |
| Calendar.DayFromYearMonotone | api/database.js:66 | later years start at least 365 days per year later |
| Calendar.YearOf | api/database.js:47 | YearFromTime: the year whose first day is at or before t and whose successor's first day is after t |
| Calendar.YearOfUnique | api/database.js:47 | that year is the only one containing t |
| Calendar.LaterYearStartsLater | api/database.js:47 | a day before the end of year a lies before the start of every later year |
| Calendar.DaysInMonth | api/database.js:47 | a month has 28 to 31 days |
| Calendar.MonthsFillYear | api/database.js:66 | the twelve months together hold the days of the year |
| Calendar.DaysBeforeMonthMonotone | api/database.js:66 | each month starts at least 28 days after the previous one |
| Calendar.MonthOf | api/database.js:47 | MonthFromTime: the month whose days contain the day of the year |
| Calendar.MonthOfUnique | api/database.js:47 | that month is the only one containing that day of the year |
| Calendar.MakeDay | api/database.js:66 | MakeDay, the day arithmetic behind `new Date(y, m, d)` and `setDate`: carrying months beyond 0..11 twelve at a time gives ECMAScript's closed form, year plus the floor of month / 12 and month modulo 12 |
| Calendar.MakeDayInYear | api/database.js:66 | MakeDay of an in-range month is the day number of that civil date |
| Calendar.DayNumberWithinYear | api/database.js:66 | a valid date's day number lies within its year |
| Calendar.CivilOf | api/database.js:47 | the civil date of a day number is valid and has that day number |
| Calendar.CivilOfDayNumber | api/database.js:47 | civil date and day number are inverse: a valid date is recovered from its day number |
| Calendar.Succ | api/database.js:47 | the calendar successor of a valid date is valid |
| Calendar.SuccDayNumber | api/database.js:47 | the successor of a date has the next day number, across month and year ends and leap days |
| Calendar.NextDay | api/database.js:47 | the civil date of t + 1 is the successor of the civil date of t |
| Calendar.CivilOfSucc | api/database.js:47 | the day after a date with day number t is the civil date of t + 1 |
| Calendar.DayAfter | api/database.js:47 | setting the day of the month to one more than its current value gives the next day number |
| Calendar.DayOverflow | api/database.js:66 | a day past the end of a month carries into the next month |
| Calendar.DayOverflowDecember | api/database.js:66 | a day past the end of December carries into January of the next year |
| Calendar.MonthOverflow | api/database.js:64-66 | month 12 (0-based) and beyond carry into the next year |
| JsDate.TimeClip | api/database.js:66 | a day is kept when its time value, the day times 86,400,000 ms, is within 8.64e15 ms of the epoch, and is NaN otherwise |
| JsDate.Construct | api/database.js:66 | `new Date(y, m, d)` is NaN when an argument is NaN, and a non-NaN result is within the representable range |
| JsDate.RepresentableYears | api/database.js:66 | every date of the years 100..275759 lies strictly inside the representable range |
| JsDate.ConstructFullYear | api/database.js:66 | from the year 100 on, `new Date(y, m, d)` is MakeDay of its arguments, clipped |
| JsDate.SameDay | api/database.js:66 | two constructor calls from the year 100 on that MakeDay sends to the same day give the same Date |
| JsDate.ConstructCarriesDay | api/database.js:64-66 | a day past the end of month m is the corresponding day of month m + 1 |
| JsDate.ConstructCarriesYear | api/database.js:64-66 | a day past the end of December is a day of January of the next year |
| JsDate.ConstructCarriesMonth | api/database.js:64-66 | month 12 (0-based) is January of the next year |
| JsDate.ConstructDate | api/database.js:66 | `new Date(y, m - 1, d)` of a valid date is that date's day number; a year of 0..99 names 1900..1999 |
| JsDate.DateOfMonth | api/database.js:47 | `getDate()` is NaN exactly for an invalid Date, otherwise a day 1..31 |
| JsDate.SetDateValue | api/database.js:47 | `setDate(dt)`: NaN when the Date or the argument is NaN, otherwise a day in the representable range; setting the day a valid Date already has leaves it unchanged |
| JsDate.SetDateNextDay | api/database.js:47 | `setDate(getDate() + 1)` gives the time value one day later, NaN when that is out of range |
| JsDate.DateOfMonthOf | api/database.js:47 | `getDate()` of a valid Date is the day field of its civil date |
| JsDate.SetDateDayAfter | api/database.js:47 | setting the day to one past the current one gives the clipped next day |
| JsDate.IsoString | api/database.js:48 | `toISOString()` throws a RangeError exactly for an invalid Date |
| JsDate.DateStringIsFullDate | api/database.js:48 | for years 0..9999 the date part is a full-date of section 5.6 of RFC 3339 (4, 2 and 2 digits joined by `-`), and `parseInt` reads its fields back as year, month and day |
| JsDate.DateStringFields | api/database.js:48 | the date part is 10 characters long, with hyphens at 4 and 7 and the padded fields between |
| JsDate.YearString | api/database.js:48 | `toISOString` writes a year of 0..9999 as four digits of its value, and any other year as its sign followed by at least six digits of its magnitude |
| JsDate.DateString | api/database.js:48 | the date part of `toISOString` holds no `T` and is six characters longer than its year |
| JsDate.IsoDatePart | api/database.js:48 | `split('T')[0]` of the ISO string is exactly its date part |
| JsDate.DateObject.constructor | api/database.js:66 | a new Date holds the given time value |
| JsDate.DateObject.SetDate | api/database.js:47 | `setDate` replaces the time value by the day set in the same year and month |
| JsDate.DateObject.GetTime | api/database.js:46 | `getTime()` is NaN exactly when the Date holds NaN, and otherwise the held time value |
| JsDate.DateObject.GetDate | api/database.js:47 | `getDate()` is NaN exactly for an invalid Date, otherwise the day field 1..31 of the held date |
| JsDate.DateObject.ToISOString | api/database.js:48 | `toISOString()` throws a RangeError exactly for an invalid Date, and otherwise its part before the first `T` is the held date as DateString writes it |
| JsMap.InsertKey | api/database.js:49 | after `set` the old keys keep their positions, the key set gains only k, and distinct keys stay distinct |
| JsMap.OrderedMap.constructor | api/database.js:34 | `new Map()` is empty |
| JsMap.OrderedMap.Set | api/database.js:49 | `set(k, v)` stores v under k, changes the key order as InsertKey says, and keeps the keys distinct and matching the stored values |
| JsMap.OrderedMap.Entries | api/database.js:56 | `Array.from(map)` lists each key with its value, in insertion order |
| Database.MinusOne | api/database.js:64 | the month argument less one: NaN stays NaN, and adding one back gives the parsed month |
| Database.ParseDate | api/database.js:60-69 | `parseDate` is an invalid date unless the string has exactly two `/`; a valid result is within the representable range |
| Database.ParseDateFields | api/database.js:61-66 | a `Y/M/D` string in any zero padding is handed to the Date constructor as Y, M - 1 and D |
| Database.ParseDateOfParts | api/database.js:61-66 | with three pieces, `parseDate` reads each with `parseInt` and builds the date with the month less one |
| Database.SplitSlashDate | api/database.js:61 | a `Y/M/D` string splits into its three fields |
| Database.ParseDateCivil | api/database.js:60-66 | a valid date of the years 100..275759 written `Y/M/D` parses to its own day number |
| Database.ParseDateTwoDigitYear | api/database.js:63-66 | a year field 0..99 parses as the same year of the 1900s |
| Database.ParseDateNeedsSlashes | api/database.js:61-68 | a string without `/` is an invalid date |
| Database.ParseDateCarriesDay | api/database.js:63-66 | a day past the end of its month reads as the corresponding day of the next month (`2024/02/31` as March 2) |
| Database.ParseDateCarriesYear | api/database.js:63-66 | a day past the end of December reads as a day of January of the next year |
| Database.ParseDateCarriesMonth | api/database.js:64-66 | month 13 reads as January of the next year |
| Database.Selected | api/database.js:41 | the filter: a `Date` property, and a checkbox property whose `checkbox` is `true`; its effect on a page is stated by ClassifyUnselected and ClassifyAdmits |
| Database.Classify | api/database.js:36-53 | one iteration of the callback: a page is admitted only when it has properties, a `Date` property and a ticked checkbox |
| Database.ClassifyUnselected | api/database.js:37-43 | no properties or no `created_time` throws a TypeError; a page without `Date`, without the checkbox property or with the box unticked is skipped |
| Database.ClassifyInvalid | api/database.js:43-51 | a selected page whose timestamp does not parse is skipped |
| Database.ClassifyNextDate | api/database.js:46-49 | a selected page with a valid date gets the admitting step's date, or its exception |
| Database.ClassifyAdmits | api/database.js:41-49 | a selected page dated t, before the last representable day, is admitted with the date part of the day after t |
| Database.ClassifyLastDay | api/database.js:46-48 | a selected page dated on the last representable day throws a RangeError |
| Database.NextDate | api/database.js:47-48 | the admitting step, `setDate(getDate() + 1)` then `toISOString().split('T')[0]`: it can only throw a RangeError and its date holds no `T` |
| Database.DatePart | api/database.js:48 | `split('T')[0]` on the ISO string: a prefix of it without `T` that stops at its first `T`, and the exception of `toISOString` passed on |
| Database.NextDateValue | api/database.js:47-48 | the admitting step yields the calendar successor as YYYY-MM-DD, or a RangeError exactly on the last representable day |
| Database.NextDateIso | api/database.js:47-48 | after `setDate(getDate() + 1)`, `toISOString` sees the clipped next day |
| Database.DatePartOfNextDay | api/database.js:48 | the date part of the next day's ISO string is the next day's date string |
| Database.NextDateOfObject | api/database.js:46-48 | the steps done on the Date object compute the admitting step |
| Database.AdmittedIsDateString | api/database.js:47-48 | every admitted date is the ISO date part of some valid calendar date |
| Database.AdmitsNextDay | api/database.js:41-49 | a selected page with a valid `Y/M/D` date of the years 100..275759 is admitted as the calendar day after it |
| Database.SkipsTimestampWithoutSlashes | api/database.js:43-51 | a selected page whose timestamp has no `/`, such as an ISO 8601 one, is skipped |
| Database.EndOfMonthExample | api/database.js:43-49 | `2024/01/31` is admitted as `2024-02-01` |
| Database.LeapDayExample | api/database.js:43-49 | `2024/02/29` is admitted as `2024-03-01` |
| Database.NewYearExample | api/database.js:43-49 | `2023/12/31` is admitted as `2024-01-01` |
| Database.Outcomes | api/database.js:36 | the callback's outcome for each page, in page order |
| Database.Collect | api/database.js:34-54 | the keys collected by the loop are distinct |
| Database.CollectStep | api/database.js:36-54 | one more page: a throw aborts, a skip keeps the keys, an admission inserts the date |
| Database.FailureSticks | api/database.js:36-54 | once a page has thrown, the later pages change nothing |
| Database.NoThrowSucceeds | api/database.js:36-54 | if no page throws, the loop completes |
| Database.FirstThrowAborts | api/database.js:36-54 | the exception of the first page that throws escapes `processData` |
| Database.SkipChangesNothing | api/database.js:43-52 | a skipped outcome inserted anywhere leaves what the loop collects unchanged |
| Database.AggregateIgnoresSkipped | api/database.js:36-54 | adding a skipped page, for an invalid date or by the filter, anywhere in the input does not change the result |
| Database.CollectMembers | api/database.js:49 | a date is collected exactly when some page admits it |
| Database.CollectOrder | api/database.js:49-56 | dates appear in the order of their first admission; re-admitting a date does not move it |
| Database.Aggregate | api/database.js:33-57 | `processData` throws exactly when the loop throws; an empty input gives an empty array; every entry is checked and no date occurs twice |
| Database.AggregateMembers | api/database.js:49-56 | the dates of the result are exactly the dates the pages are admitted with |
| Database.CheckedEntries | api/database.js:56 | one `{date, isChecked: true}` entry per collected date, in order |
| Database.AggregateEntries | api/database.js:56 | the objects built from the Map's entries are the checked entries of its keys |
| Database.ProcessPage | api/database.js:36-53 | the callback on a Map: it returns the page's outcome; on admission the Map gains the date as InsertKey says, with value `true`; otherwise the Map is unchanged |
| Database.ProcessData | api/database.js:33-57 | the loop over the pages, filling a Map in place, returns exactly `Aggregate` |

## Left out

- The exported request handler (api/database.js:5-31) is not modelled. This covers the POST to
  the Notion API, `response.json()`, the `response.ok` check, and the 500 response built from
  the caught error. It is network I/O and an HTTP framework.
- `dotenv` and `process.env` (api/database.js:1-3, 6-8) are not modelled: the checkbox property
  name is a parameter. An unset variable reaches `processData` as `undefined`, which looks up the
  property named `"undefined"`; the model covers that as an ordinary name.
- `processData` takes `data` to be an array (api/database.js:36). The model's input is a
  sequence of pages, so the case where the upstream response has no `results` field and
  `data.forEach` throws a TypeError is not modelled.
- `console.error` (api/database.js:28, 51) is not modelled. The logged case is the outcome
  `Skipped(InvalidDate)`.
- The host time zone is taken to be UTC. `new Date(y, m, d)` builds local midnight, while
  `toISOString` prints UTC. In a zone east of UTC the printed date is one day earlier than the
  local one, so there the `+ 1` cancels out and the output is the parsed date itself. In a zone
  west of UTC the output is the day after. The model has one fixed zone, UTC, in which the
  output is always the next calendar day.
- Number precision is not modelled: `parseInt` and the Date arithmetic work on doubles, the
  model on exact integers. They can differ only when a field's value exceeds 2^53. A single
  such field already puts the date outside the representable range, so both give an invalid
  Date. Only huge fields that cancel each other out could tell the two apart.
- JavaScript truthiness (api/database.js:41) is reduced to presence: the `Date` property counts
  when present, and `checkbox` is an optional boolean that must be `true`. A `Date` property
  whose value is `null`, or a checkbox value of another JSON type, is not modelled.
- `created_time` is an optional string. A value of another JSON type would also make `split`
  throw a TypeError; the model only has the absent case. A page that is itself `null` is not
  modelled either.
- JsDate.DateStringIsFullDate: the YYYY-MM-DD shape is proved for years 0..9999 only. Outside
  that range `toISOString` writes a sign and six year digits; YearString states that form,
  and no full-date shape is claimed for it.
