/** The aggregation behind the `/api/database` endpoint: `processData` turns the pages of a
    database query into the list of distinct dates whose checkbox is ticked, and `parseDate`
    reads a `YYYY/MM/DD` timestamp. */
module Database {
  import opened Wrappers
  import opened JsString
  import opened Calendar
  import opened JsDate
  import opened JsMap

  /** A page property, reduced to the two fields the aggregation reads: `created_time` of
      the `Date` property and `checkbox` of the checkbox property. `None` is an absent field. */
  datatype Property = Property(createdTime: Option<string>, checkbox: Option<bool>)

  /** A page of the query result; `None` when the page carries no `properties` object. */
  datatype Page = Page(properties: Option<map<string, Property>>)

  /** One element of the array the endpoint returns. */
  datatype DateEntry = DateEntry(date: string, isChecked: bool)

  /** Why a page contributes nothing: it fails the filter, or its timestamp does not parse
      (the case the loop reports on the console). */
  datatype SkipReason = NotSelected | InvalidDate

  /** What one iteration of the loop does with a page. */
  datatype Outcome = Admitted(date: string) | Skipped(reason: SkipReason) | Thrown(error: JsError)

  /** The fixed name of the date property. */
  const DateKey: string := "Date"

  // ---------------------------------------------------------------------------
  // parseDate
  // ---------------------------------------------------------------------------

  /** `parseInt(…) - 1`: NaN stays NaN. */
  function MinusOne(v: Option<int>): (r: Option<int>)
    ensures r.None? <==> v.None?
    ensures r.Some? ==> r.value + 1 == v.value
  {
    if v.None? then None else Some(v.value - 1)
  }

  /** `parseDate`: split at `/`; with exactly three pieces, read year, month and day with
      parseInt and build the local date (month made 0-based); otherwise an invalid Date. */
  function ParseDate(s: string): (t: Option<int>)
    ensures Count(s, '/') != 2 ==> t.None?
    ensures t.Some? ==> -MaxDay <= t.value <= MaxDay
  {
    var parts := Split(s, '/');
    if |parts| == 3 then
      Construct(ParseInt(parts[0]), MinusOne(ParseInt(parts[1])), ParseInt(parts[2]))
    else None
  }

  /** Three digit fields joined by `/`, each padded with zeros to its width. */
  function SlashDate(year: nat, month: nat, day: nat, w1: nat, w2: nat, w3: nat): string
  {
    ZeroPad(year, w1) + "/" + ZeroPad(month, w2) + "/" + ZeroPad(day, w3)
  }

  /** With exactly three pieces, parseDate hands them to parseInt and the Date constructor. */
  lemma {:induction false} ParseDateOfParts(s: string, a: string, b: string, c: string)
    requires Split(s, '/') == [a, b, c]
    ensures ParseDate(s) == Construct(ParseInt(a), MinusOne(ParseInt(b)), ParseInt(c))
  {
  }

  /** The month argument of the constructor is the parsed month less one. */
  lemma {:induction false} ConstructFields(year: Option<int>, month: Option<int>, day: Option<int>, y: int, m: int, d: int)
    requires year == Some(y) && month == Some(m) && day == Some(d)
    ensures Construct(year, MinusOne(month), day) == Construct(Some(y), Some(m - 1), Some(d))
  {
  }

  /** The pieces of a `Y/M/D` string are its three fields. */
  lemma {:induction false} SplitSlashDate(year: nat, month: nat, day: nat, w1: nat, w2: nat, w3: nat)
    ensures Split(SlashDate(year, month, day, w1, w2, w3), '/')
      == [ZeroPad(year, w1), ZeroPad(month, w2), ZeroPad(day, w3)]
  {
    var a, b, c := ZeroPad(year, w1), ZeroPad(month, w2), ZeroPad(day, w3);
    DigitsExclude(a, '/');
    DigitsExclude(b, '/');
    DigitsExclude(c, '/');
    SplitThree(a, b, c, '/');
  }

  /** parseDate reads the three fields back as they were written. */
  lemma {:induction false} ParseDateFields(year: nat, month: nat, day: nat, w1: nat, w2: nat, w3: nat)
    ensures ParseDate(SlashDate(year, month, day, w1, w2, w3))
      == Construct(Some(year), Some(month - 1), Some(day))
  {
    var a, b, c := ZeroPad(year, w1), ZeroPad(month, w2), ZeroPad(day, w3);
    SplitSlashDate(year, month, day, w1, w2, w3);
    ParsePadded(year, w1);
    ParsePadded(month, w2);
    ParsePadded(day, w3);
    ParseDateOfParts(SlashDate(year, month, day, w1, w2, w3), a, b, c);
    ConstructFields(ParseInt(a), ParseInt(b), ParseInt(c), year, month, day);
  }


  /** A valid date of the years 100..275759, written `Y/M/D` in any widths, parses to its
      own day number. */
  lemma {:induction false} ParseDateCivil(c: CivilDate, w1: nat, w2: nat, w3: nat)
    requires IsValid(c) && 100 <= c.year <= 275759
    ensures ParseDate(SlashDate(c.year, c.month, c.day, w1, w2, w3)) == Some(DayNumber(c))
  {
    ParseDateFields(c.year, c.month, c.day, w1, w2, w3);
    ConstructDate(c.year, c.year, c.month, c.day);
  }

  /** A year field of 0..99 denotes a year of the 1900s. */
  lemma {:induction false} ParseDateTwoDigitYear(year: nat, month: nat, day: nat, w1: nat, w2: nat, w3: nat)
    requires year <= 99 && IsValid(CivilDate(1900 + year, month, day))
    ensures ParseDate(SlashDate(year, month, day, w1, w2, w3))
      == Some(DayNumber(CivilDate(1900 + year, month, day)))
  {
    ParseDateFields(year, month, day, w1, w2, w3);
    ConstructDate(year, 1900 + year, month, day);
  }

  /** A timestamp without `/`, such as an ISO 8601 one, is an invalid date. */
  lemma {:induction false} ParseDateNeedsSlashes(s: string)
    requires '/' !in s
    ensures ParseDate(s) == None
  {
    CountAbsent(s, '/');
  }

  /** A day past the end of its month carries into the next month: `2024/02/31` reads as
      `new Date(2024, 2, 2)`, March 2. */
  lemma {:induction false} ParseDateCarriesDay(year: nat, month: nat, day: nat, w1: nat, w2: nat, w3: nat)
    requires year >= 100 && 1 <= month <= 11 && day >= DaysInMonth(year, month)
    ensures ParseDate(SlashDate(year, month, day, w1, w2, w3))
      == Construct(Some(year), Some(month), Some(day - DaysInMonth(year, month)))
  {
    ParseDateFields(year, month, day, w1, w2, w3);
    ConstructCarriesDay(year, month, day);
  }

  /** A day past the end of December carries into January of the next year. */
  lemma {:induction false} ParseDateCarriesYear(year: nat, day: nat, w1: nat, w2: nat, w3: nat)
    requires year >= 100 && day >= 31
    ensures ParseDate(SlashDate(year, 12, day, w1, w2, w3))
      == Construct(Some(year + 1), Some(0), Some(day - 31))
  {
    ParseDateFields(year, 12, day, w1, w2, w3);
    ConstructCarriesYear(year, day);
  }

  /** Month 13 is January of the next year. */
  lemma {:induction false} ParseDateCarriesMonth(year: nat, day: nat, w1: nat, w2: nat, w3: nat)
    requires year >= 100
    ensures ParseDate(SlashDate(year, 13, day, w1, w2, w3))
      == Construct(Some(year + 1), Some(0), Some(day))
  {
    ParseDateFields(year, 13, day, w1, w2, w3);
    ConstructCarriesMonth(year, day);
  }

  // ---------------------------------------------------------------------------
  // One page
  // ---------------------------------------------------------------------------

  /** The filter of the loop: a `Date` property, and a property named checkboxName whose
      checkbox is ticked. */
  predicate Selected(props: map<string, Property>, checkboxName: string)
  {
    DateKey in props && checkboxName in props && props[checkboxName].checkbox == Some(true)
  }

  /** The body of the loop for one page: read the properties (a TypeError when there are
      none), apply the filter, parse the timestamp (a TypeError when it is absent), skip an
      invalid date, move the date one day on, and keep the part of its ISO string before `T`
      (a RangeError when the date moved out of range). */
  function Classify(p: Page, checkboxName: string): (o: Outcome)
    ensures o.Admitted? ==> p.properties.Some? && Selected(p.properties.value, checkboxName)
  {
    if p.properties.None? then Thrown(TypeError)
    else if !Selected(p.properties.value, checkboxName) then Skipped(NotSelected)
    else
      var created := p.properties.value[DateKey].createdTime;
      if created.None? then Thrown(TypeError)
      else
        var t := ParseDate(created.value);
        if t.None? then Skipped(InvalidDate)
        else
          match NextDate(t.value)
          case Failure(e) => Thrown(e)
          case Success(date) => Admitted(date)
  }

  /** The admitting step for a valid date t: `setDate(getDate() + 1)`, then the part of
      `toISOString()` before `T`. */
  function NextDate(t: int): (r: Result<string, JsError>)
    ensures r.Failure? ==> r.error == RangeError
    ensures r.Success? ==> 'T' !in r.value
  {
    DatePart(IsoString(SetDateValue(Some(t), Some(DateOfMonth(Some(t)).value + 1))))
  }

  /** `toISOString().split('T')[0]`, passing on the exception toISOString throws: the
      longest prefix of the ISO string without a `T`. */
  function DatePart(iso: Result<string, JsError>): (r: Result<string, JsError>)
    ensures r.Failure? <==> iso.Failure?
    ensures r.Failure? ==> r.error == iso.error
    ensures r.Success? ==> r.value <= iso.value && 'T' !in r.value
    ensures r.Success? && |r.value| < |iso.value| ==> iso.value[|r.value|] == 'T'
  {
    if iso.Failure? then Failure(iso.error)
    else
      var parts := Split(iso.value, 'T');
      assert |parts| > 1 ==> iso.value == parts[0] + ['T'] + Join(parts[1..], 'T');
      Success(parts[0])
  }

  /** The admitting step yields the calendar day after t, in the form YYYY-MM-DD; only the
      last representable day has no successor, and toISOString then throws. */
  lemma {:induction false} NextDateValue(t: int)
    requires -MaxDay <= t <= MaxDay
    ensures t < MaxDay ==> NextDate(t) == Success(DateString(Succ(CivilOf(t))))
    ensures t == MaxDay ==> NextDate(t) == Failure(RangeError)
  {
    NextDateIso(t);
    if t < MaxDay {
      DatePartOfNextDay(t);
      NextDay(t);
    }
  }

  /** For a day before the last representable one, the date part of the next day's ISO
      string is that day's date string. */
  lemma {:induction false} DatePartOfNextDay(t: int)
    requires -MaxDay <= t < MaxDay
    ensures DatePart(IsoString(TimeClip(t + 1))) == Success(DateString(CivilOf(t + 1)))
  {
    IsoDatePart(CivilOf(t + 1));
  }

  /** After `setDate(getDate() + 1)` the Date holds the next day, clipped. */
  lemma {:induction false} NextDateIso(t: int)
    ensures NextDate(t) == DatePart(IsoString(TimeClip(t + 1)))
  {
    SetDateNextDay(t);
  }

  /** A selected page whose timestamp parses to day t is admitted as the calendar day after
      t, written YYYY-MM-DD. */
  lemma {:induction false} ClassifyAdmits(p: Page, checkboxName: string, t: int)
    requires p.properties.Some? && Selected(p.properties.value, checkboxName)
    requires p.properties.value[DateKey].createdTime.Some?
    requires ParseDate(p.properties.value[DateKey].createdTime.value) == Some(t)
    requires t < MaxDay
    ensures Classify(p, checkboxName) == Admitted(DateString(Succ(CivilOf(t))))
  {
    NextDateValue(t);
  }

  /** The admitting step as the callback performs it on a Date object. */
  lemma {:induction false} NextDateOfObject(t: int, day: Option<int>, time: Option<int>, iso: Result<string, JsError>)
    requires day == DateOfMonth(Some(t))
    requires time == SetDateValue(Some(t), Some(day.value + 1))
    requires iso == IsoString(time)
    ensures DatePart(iso) == NextDate(t)
  {
    SetDateSameArgument(t, day);
  }

  /** A selected page whose timestamp parses to day t gets the admitting step's result. */
  lemma {:induction false} ClassifyNextDate(p: Page, checkboxName: string, t: int)
    requires p.properties.Some? && Selected(p.properties.value, checkboxName)
    requires p.properties.value[DateKey].createdTime.Some?
    requires ParseDate(p.properties.value[DateKey].createdTime.value) == Some(t)
    ensures NextDate(t).Failure? ==> Classify(p, checkboxName) == Thrown(NextDate(t).error)
    ensures NextDate(t).Success? ==> Classify(p, checkboxName) == Admitted(NextDate(t).value)
  {
  }

  /** A selected page whose timestamp parses to the last representable day throws: its
      successor is NaN and toISOString raises a RangeError. */
  lemma {:induction false} ClassifyLastDay(p: Page, checkboxName: string)
    requires p.properties.Some? && Selected(p.properties.value, checkboxName)
    requires p.properties.value[DateKey].createdTime.Some?
    requires ParseDate(p.properties.value[DateKey].createdTime.value) == Some(MaxDay)
    ensures Classify(p, checkboxName) == Thrown(RangeError)
  {
    NextDateValue(MaxDay);
  }

  /** A selected page whose timestamp does not parse is skipped (and reported). */
  lemma {:induction false} ClassifyInvalid(p: Page, checkboxName: string)
    requires p.properties.Some? && Selected(p.properties.value, checkboxName)
    requires p.properties.value[DateKey].createdTime.Some?
    requires ParseDate(p.properties.value[DateKey].createdTime.value) == None
    ensures Classify(p, checkboxName) == Skipped(InvalidDate)
  {
  }

  /** The pages that do not reach the date: no properties or no timestamp throw a
      TypeError, a page failing the filter is skipped. */
  lemma {:induction false} ClassifyUnselected(p: Page, checkboxName: string)
    ensures p.properties.None? ==> Classify(p, checkboxName) == Thrown(TypeError)
    ensures p.properties.Some? && !Selected(p.properties.value, checkboxName)
      ==> Classify(p, checkboxName) == Skipped(NotSelected)
    ensures p.properties.Some? && Selected(p.properties.value, checkboxName)
      && p.properties.value[DateKey].createdTime.None?
      ==> Classify(p, checkboxName) == Thrown(TypeError)
  {
  }

  /** A selected page whose timestamp holds no `/` (an ISO 8601 timestamp such as
      `2024-03-14T09:30:00.000Z`) is skipped as an invalid date. */
  lemma {:induction false} SkipsTimestampWithoutSlashes(p: Page, checkboxName: string, s: string)
    requires p.properties.Some? && Selected(p.properties.value, checkboxName)
    requires p.properties.value[DateKey].createdTime == Some(s) && '/' !in s
    ensures Classify(p, checkboxName) == Skipped(InvalidDate)
  {
    ParseDateNeedsSlashes(s);
    ClassifyInvalid(p, checkboxName);
  }

  /** Every admitted date is the date part toISOString writes for some calendar date. */
  lemma {:induction false} AdmittedIsDateString(p: Page, checkboxName: string)
    ensures Classify(p, checkboxName).Admitted? ==>
      exists c :: IsValid(c) && Classify(p, checkboxName).date == DateString(c)
  {
    ClassifyUnselected(p, checkboxName);
    if p.properties.Some? && Selected(p.properties.value, checkboxName)
      && p.properties.value[DateKey].createdTime.Some?
    {
      var t := ParseDate(p.properties.value[DateKey].createdTime.value);
      if t.None? {
        ClassifyInvalid(p, checkboxName);
      } else if t.value == MaxDay {
        ClassifyLastDay(p, checkboxName);
      } else {
        ClassifyAdmits(p, checkboxName, t.value);
      }
    }
  }

  /** A selected page whose timestamp is a valid `Y/M/D` date of the years 100..275759 is
      admitted as the calendar day after that date. */
  lemma {:induction false} AdmitsNextDay(p: Page, checkboxName: string, c: CivilDate, w1: nat, w2: nat, w3: nat)
    requires IsValid(c) && 100 <= c.year <= 275759
    requires p.properties.Some? && Selected(p.properties.value, checkboxName)
    requires p.properties.value[DateKey].createdTime
      == Some(SlashDate(c.year, c.month, c.day, w1, w2, w3))
    ensures Classify(p, checkboxName) == Admitted(DateString(Succ(c)))
  {
    ParseDateCivil(c, w1, w2, w3);
    RepresentableYears(c);
    ClassifyAdmits(p, checkboxName, DayNumber(c));
    CivilOfDayNumber(c);
  }

  /** `2024/01/31` becomes `2024-02-01`: the day after the end of a month. */
  lemma {:induction false} EndOfMonthExample(p: Page, checkboxName: string)
    requires p.properties.Some? && Selected(p.properties.value, checkboxName)
    requires p.properties.value[DateKey].createdTime == Some("2024/01/31")
    ensures Classify(p, checkboxName) == Admitted("2024-02-01")
  {
    JanuaryThirtyFirst();
    AdmitsNextDay(p, checkboxName, CivilDate(2024, 1, 31), 4, 2, 2);
    FebruaryFirst();
  }

  /** `2024/02/29` becomes `2024-03-01`: the day after a leap day. */
  lemma {:induction false} LeapDayExample(p: Page, checkboxName: string)
    requires p.properties.Some? && Selected(p.properties.value, checkboxName)
    requires p.properties.value[DateKey].createdTime == Some("2024/02/29")
    ensures Classify(p, checkboxName) == Admitted("2024-03-01")
  {
    FebruaryTwentyNinth();
    AdmitsNextDay(p, checkboxName, CivilDate(2024, 2, 29), 4, 2, 2);
    MarchFirst();
  }

  /** `2023/12/31` becomes `2024-01-01`: the day after the end of a year. */
  lemma {:induction false} NewYearExample(p: Page, checkboxName: string)
    requires p.properties.Some? && Selected(p.properties.value, checkboxName)
    requires p.properties.value[DateKey].createdTime == Some("2023/12/31")
    ensures Classify(p, checkboxName) == Admitted("2024-01-01")
  {
    DecemberThirtyFirst();
    AdmitsNextDay(p, checkboxName, CivilDate(2023, 12, 31), 4, 2, 2);
    JanuaryFirst();
  }

  lemma {:induction false} FebruaryTwentyNinth()
    ensures SlashDate(2024, 2, 29, 4, 2, 2) == "2024/02/29"
  {
    Year2024();
    Pad2();
    assert DecimalString(29) == "29";
  }

  lemma {:induction false} MarchFirst()
    ensures Succ(CivilDate(2024, 2, 29)) == CivilDate(2024, 3, 1)
    ensures DateString(CivilDate(2024, 3, 1)) == "2024-03-01"
  {
    Year2024();
    Pad1();
    assert DecimalString(3) == "3";
  }

  lemma {:induction false} DecemberThirtyFirst()
    ensures SlashDate(2023, 12, 31, 4, 2, 2) == "2023/12/31"
  {
    assert DecimalString(20) == "20";
    assert DecimalString(202) == "202";
    assert DecimalString(2023) == "2023";
    assert DecimalString(12) == "12";
    Pad31();
  }

  lemma {:induction false} JanuaryFirst()
    ensures Succ(CivilDate(2023, 12, 31)) == CivilDate(2024, 1, 1)
    ensures DateString(CivilDate(2024, 1, 1)) == "2024-01-01"
  {
    Year2024();
    Pad1();
  }

  lemma {:induction false} JanuaryThirtyFirst()
    ensures SlashDate(2024, 1, 31, 4, 2, 2) == "2024/01/31"
  {
    Year2024();
    Pad1();
    Pad31();
  }

  lemma {:induction false} FebruaryFirst()
    ensures Succ(CivilDate(2024, 1, 31)) == CivilDate(2024, 2, 1)
    ensures DateString(CivilDate(2024, 2, 1)) == "2024-02-01"
  {
    Year2024();
    Pad1();
    Pad2();
  }

  lemma {:induction false} Year2024()
    ensures ZeroPad(2024, 4) == "2024" && YearString(2024) == "2024"
  {
    assert DecimalString(20) == "20";
    assert DecimalString(202) == "202";
    assert DecimalString(2024) == "2024";
  }

  lemma {:induction false} Pad1()
    ensures ZeroPad(1, 2) == "01"
  {
    assert DecimalString(1) == "1";
  }

  lemma {:induction false} Pad2()
    ensures ZeroPad(2, 2) == "02"
  {
    assert DecimalString(2) == "2";
  }

  lemma {:induction false} Pad31()
    ensures ZeroPad(31, 2) == "31"
  {
    assert DecimalString(31) == "31";
  }

  // ---------------------------------------------------------------------------
  // The loop over the pages
  // ---------------------------------------------------------------------------

  /** What the loop body does with each page, in page order. */
  function Outcomes(data: seq<Page>, checkboxName: string): (os: seq<Outcome>)
    ensures |os| == |data|
    ensures forall i :: 0 <= i < |data| ==> os[i] == Classify(data[i], checkboxName)
  {
    seq(|data|, i requires 0 <= i < |data| => Classify(data[i], checkboxName))
  }

  /** The keys of the Map after the loop has met these outcomes, in insertion order, or the
      exception that stopped it. */
  function Collect(os: seq<Outcome>): (r: Result<seq<string>, JsError>)
    ensures r.Success? ==> Distinct(r.value)
    decreases |os|
  {
    if os == [] then Success([])
    else
      var prev := Collect(os[..|os| - 1]);
      if prev.Failure? then prev
      else
        match os[|os| - 1]
        case Thrown(e) => Failure(e)
        case Skipped(_) => prev
        case Admitted(d) => Success(InsertKey(prev.value, d))
  }

  /** `processData`: one entry per collected date, each marked checked. */
  function Aggregate(data: seq<Page>, checkboxName: string): (r: Result<seq<DateEntry>, JsError>)
    ensures data == [] ==> r == Success([])
    ensures r.Failure? <==> Collect(Outcomes(data, checkboxName)).Failure?
    ensures r.Success? ==> forall i :: 0 <= i < |r.value| ==> r.value[i].isChecked
    ensures r.Success? ==>
      forall i, j :: 0 <= i < j < |r.value| ==> r.value[i].date != r.value[j].date
  {
    match Collect(Outcomes(data, checkboxName))
    case Failure(e) => Failure(e)
    case Success(keys) => Success(CheckedEntries(keys))
  }

  /** One entry per date, in order, each marked checked. */
  function CheckedEntries(keys: seq<string>): (es: seq<DateEntry>)
    ensures |es| == |keys|
    ensures forall i :: 0 <= i < |keys| ==> es[i] == DateEntry(keys[i], true)
  {
    seq(|keys|, i requires 0 <= i < |keys| => DateEntry(keys[i], true))
  }

  /** Once the loop has thrown, the later pages change nothing. */
  lemma {:induction false} FailureSticks(os: seq<Outcome>, k: nat)
    requires k <= |os| && Collect(os[..k]).Failure?
    ensures Collect(os) == Collect(os[..k])
    decreases |os|
  {
    if k < |os| {
      var init := os[..|os| - 1];
      assert init[..k] == os[..k];
      FailureSticks(init, k);
    } else {
      assert os[..k] == os;
    }
  }

  /** If no page throws, the loop completes. */
  lemma {:induction false} NoThrowSucceeds(os: seq<Outcome>)
    requires forall i :: 0 <= i < |os| ==> !os[i].Thrown?
    ensures Collect(os).Success?
    decreases |os|
  {
    if os != [] {
      var init := os[..|os| - 1];
      assert forall i :: 0 <= i < |init| ==> init[i] == os[i];
      NoThrowSucceeds(init);
    }
  }

  /** The first page that throws decides the outcome: its exception escapes. */
  lemma {:induction false} FirstThrowAborts(os: seq<Outcome>, i: nat)
    requires i < |os| && os[i].Thrown?
    requires forall j :: 0 <= j < i ==> !os[j].Thrown?
    ensures Collect(os) == Failure(os[i].error)
  {
    assert os[..i + 1][..i] == os[..i];
    NoThrowSucceeds(os[..i]);
    FailureSticks(os, i + 1);
  }

  /** A date is collected exactly when some page admits it. */
  lemma {:induction false} CollectMembers(os: seq<Outcome>)
    requires Collect(os).Success?
    ensures forall d :: d in Collect(os).value <==>
      exists i :: 0 <= i < |os| && os[i] == Admitted(d)
    decreases |os|
  {
    if os != [] {
      var init := os[..|os| - 1];
      CollectMembers(init);
      assert forall i :: 0 <= i < |init| ==> init[i] == os[i];
      forall d | exists i :: 0 <= i < |os| && os[i] == Admitted(d)
        ensures d in Collect(os).value
      {
        var i :| 0 <= i < |os| && os[i] == Admitted(d);
        if i < |init| {
          assert init[i] == Admitted(d);
        }
      }
    }
  }

  /** The dates come in the order of their first admission: wherever a later date is
      admitted, every earlier date has been admitted before. */
  lemma {:induction false} CollectOrder(os: seq<Outcome>, a: nat, b: nat, q: nat)
    requires Collect(os).Success?
    requires a < b < |Collect(os).value| && q < |os|
    requires os[q] == Admitted(Collect(os).value[b])
    ensures exists p :: 0 <= p < q && os[p] == Admitted(Collect(os).value[a])
    decreases |os|
  {
    var init := os[..|os| - 1];
    var keys := Collect(os).value;
    var prev := Collect(init).value;
    CollectMembers(init);
    assert a < |prev| && keys[a] == prev[a];
    if q < |init| {
      assert init[q] == Admitted(keys[b]);
      assert b < |prev| && keys[b] == prev[b];
      CollectOrder(init, a, b, q);
      var p :| 0 <= p < q && init[p] == Admitted(prev[a]);
      assert os[p] == Admitted(keys[a]);
    } else {
      var p :| 0 <= p < |init| && init[p] == Admitted(keys[a]);
      assert os[p] == Admitted(keys[a]);
    }
  }

  /** A skipped page, wherever it stands, leaves what the loop collects as it was. */
  lemma {:induction false} SkipChangesNothing(os: seq<Outcome>, k: nat, reason: SkipReason)
    requires k <= |os|
    ensures Collect(os[..k] + [Skipped(reason)] + os[k..]) == Collect(os)
    decreases |os|
  {
    var longer := os[..k] + [Skipped(reason)] + os[k..];
    if k == |os| {
      assert longer == os + [Skipped(reason)];
      assert longer[..|longer| - 1] == os;
    } else {
      var init := os[..|os| - 1];
      SkipChangesNothing(init, k, reason);
      assert longer[..|longer| - 1] == init[..k] + [Skipped(reason)] + init[k..];
      assert longer[|longer| - 1] == os[|os| - 1];
    }
  }

  /** A page that is skipped, for an invalid date or by the filter, can be added anywhere
      without changing the result. */
  lemma {:induction false} AggregateIgnoresSkipped(data: seq<Page>, k: nat, page: Page, checkboxName: string)
    requires k <= |data| && Classify(page, checkboxName).Skipped?
    ensures Aggregate(data[..k] + [page] + data[k..], checkboxName) == Aggregate(data, checkboxName)
  {
    var os := Outcomes(data, checkboxName);
    var longer := data[..k] + [page] + data[k..];
    var reason := Classify(page, checkboxName).reason;
    assert Outcomes(longer, checkboxName) == os[..k] + [Skipped(reason)] + os[k..];
    SkipChangesNothing(os, k, reason);
  }

  /** The dates of the result are exactly the dates the pages are admitted with. */
  lemma {:induction false} AggregateMembers(data: seq<Page>, checkboxName: string)
    requires Aggregate(data, checkboxName).Success?
    ensures var es := Aggregate(data, checkboxName).value;
      forall d :: (exists i :: 0 <= i < |es| && es[i].date == d) <==>
        exists k :: 0 <= k < |data| && Classify(data[k], checkboxName) == Admitted(d)
  {
    var os := Outcomes(data, checkboxName);
    CollectMembers(os);
    var keys := Collect(os).value;
    var es := Aggregate(data, checkboxName).value;
    assert forall i :: 0 <= i < |es| ==> es[i].date == keys[i];
  }

  /** The forEach callback for one page, run against the Map: it admits the page's date
      with `set`, skips the page, or throws. */
  method ProcessPage(item: Page, checkboxName: string, checkboxMap: OrderedMap<string, bool>)
    returns (o: Outcome)
    requires checkboxMap.Valid()
    modifies checkboxMap
    ensures o == Classify(item, checkboxName)
    ensures checkboxMap.Valid()
    ensures o.Admitted? ==>
      checkboxMap.keys == InsertKey(old(checkboxMap.keys), o.date)
      && checkboxMap.values == old(checkboxMap.values)[o.date := true]
    ensures !o.Admitted? ==> unchanged(checkboxMap)
  {
    ClassifyUnselected(item, checkboxName);
    if item.properties.None? {
      return Thrown(TypeError);
    }
    var props := item.properties.value;
    if !(DateKey in props && checkboxName in props && props[checkboxName].checkbox == Some(true)) {
      return Skipped(NotSelected);
    }
    var dateProperty := props[DateKey];
    if dateProperty.createdTime.None? {
      return Thrown(TypeError);
    }
    var parsed := ParseDate(dateProperty.createdTime.value);
    var dateObject := new DateObject(parsed);
    if dateObject.GetTime().None? {
      ClassifyInvalid(item, checkboxName);
      return Skipped(InvalidDate);
    }
    var day := dateObject.GetDate();
    dateObject.SetDate(Some(day.value + 1));
    var iso := dateObject.ToISOString();
    ClassifyNextDate(item, checkboxName, parsed.value);
    NextDateOfObject(parsed.value, day, dateObject.time, iso);
    if iso.Failure? {
      return Thrown(iso.error);
    }
    var date := Split(iso.value, 'T')[0];
    checkboxMap.Set(date, true);
    o := Admitted(date);
  }

  /** One more page: what the loop has collected after page i, from what it had before. */
  lemma {:induction false} CollectStep(os: seq<Outcome>, i: nat, keys: seq<string>)
    requires i < |os| && Collect(os[..i]) == Success(keys)
    ensures os[i].Thrown? ==> Collect(os[..i + 1]) == Failure(os[i].error)
    ensures os[i].Skipped? ==> Collect(os[..i + 1]) == Success(keys)
    ensures os[i].Admitted? ==> Collect(os[..i + 1]) == Success(InsertKey(keys, os[i].date))
  {
    assert os[..i + 1][..i] == os[..i];
  }

  /** The result array built from the Map's entries once every page has been seen. */
  lemma {:induction false} AggregateEntries(entries: seq<(string, bool)>, keys: seq<string>)
    requires |entries| == |keys|
    requires forall j :: 0 <= j < |entries| ==> entries[j] == (keys[j], true)
    ensures seq(|entries|, j requires 0 <= j < |entries| => DateEntry(entries[j].0, entries[j].1))
      == CheckedEntries(keys)
  {
  }

  /** `processData` as the source runs it: a Map filled in place by the callback, and its
      entries turned into the result array at the end. */
  method ProcessData(data: seq<Page>, checkboxName: string)
    returns (r: Result<seq<DateEntry>, JsError>)
    ensures r == Aggregate(data, checkboxName)
  {
    ghost var os := Outcomes(data, checkboxName);
    var checkboxMap := new OrderedMap<string, bool>();
    var i := 0;
    while i < |data|
      invariant 0 <= i <= |data|
      invariant checkboxMap.Valid()
      invariant Collect(os[..i]) == Success(checkboxMap.keys)
      invariant forall k :: k in checkboxMap.values ==> checkboxMap.values[k]
    {
      ghost var keys := checkboxMap.keys;
      var o := ProcessPage(data[i], checkboxName, checkboxMap);
      assert o == os[i];
      CollectStep(os, i, keys);
      if o.Thrown? {
        FailureSticks(os, i + 1);
        return Failure(o.error);
      }
      i := i + 1;
    }
    assert os[..i] == os;
    var entries := checkboxMap.Entries();
    AggregateEntries(entries, checkboxMap.keys);
    r := Success(seq(|entries|, j requires 0 <= j < |entries| => DateEntry(entries[j].0, entries[j].1)));
  }
}
