/** The civil calendar of `basecal`: day numbers, the Julian and Gregorian rules and the October 1582 switch.

  Every `Math.floor` of the source is an integer division by a positive divisor, which Dafny rounds
  towards minus infinity just as the source does:
  365.25 * k is 1461 * k / 4, 30.6001 * k is 306001 * k / 10000, and so on.
 */
module CivilCalendar {

  datatype Date = Date(year: int, month: int, day: int)

  // ---------- The calendar as people keep it (independent of the day-number arithmetic) ----------

  predicate JulianLeap(year: int) {
    year % 4 == 0
  }

  predicate GregorianLeap(year: int) {
    year % 4 == 0 && (year % 100 != 0 || year % 400 == 0)
  }

  predicate CivilLeap(year: int) {
    if year <= 1582 then JulianLeap(year) else GregorianLeap(year)
  }

  function MonthLength(leap: bool, month: int): int {
    if month == 2 then (if leap then 29 else 28)
    else if month in {4, 6, 9, 11} then 30
    else 31
  }

  predicate Fits(leap: bool, date: Date) {
    1 <= date.month <= 12 && 1 <= date.day <= MonthLength(leap, date.month)
  }

  predicate ValidJulian(date: Date) {
    Fits(JulianLeap(date.year), date)
  }

  predicate ValidGregorian(date: Date) {
    Fits(GregorianLeap(date.year), date)
  }

  /** The ten days dropped by the switch: 5 to 14 October 1582. */
  predicate Dropped(date: Date) {
    date.year == 1582 && date.month == 10 && 5 <= date.day <= 14
  }

  /** A date of the civil calendar: Julian through 4 October 1582, Gregorian from 15 October 1582. */
  predicate ValidCivil(date: Date) {
    Fits(CivilLeap(date.year), date) && !Dropped(date)
  }

  /** 15 October 1582 or later, in calendar order. */
  predicate AfterSwitch(date: Date) {
    date.year > 1582
    || (date.year == 1582 && (date.month > 10 || (date.month == 10 && date.day > 4)))
  }

  /** The date after `date` in a calendar where this year's leap rule gives `leap`. */
  function DayAfter(leap: bool, date: Date): Date {
    if date.day < MonthLength(leap, date.month) then Date(date.year, date.month, date.day + 1)
    else if date.month < 12 then Date(date.year, date.month + 1, 1)
    else Date(date.year + 1, 1, 1)
  }

  function NextCivil(date: Date): Date {
    if date == Date(1582, 10, 4) then Date(1582, 10, 15)
    else DayAfter(CivilLeap(date.year), date)
  }

  // ---------- The day-number arithmetic of the source ----------

  /** January and February count as months 13 and 14 of the year before. */
  function ShiftedYear(date: Date): int {
    if date.month < 3 then date.year - 1 else date.year
  }

  function ShiftedMonth(date: Date): int {
    if date.month < 3 then date.month + 12 else date.month
  }

  /** Days counted by the Julian rule, for a shifted year and month; the value the source calls `bb`. */
  function DayCount(y: int, m: int, day: int): int {
    1461 * (y + 4716) / 4 + 306001 * (m + 1) / 10000 + day
  }

  function JulianCount(date: Date): int {
    DayCount(ShiftedYear(date), ShiftedMonth(date), date.day)
  }

  /** The Gregorian correction for a shifted year. */
  function CenturyCorrection(y: int): int {
    2 - y / 100 + y / 100 / 4
  }

  /** The correction `basecal` applies, with its cut-offs at 1583 and October 1582. */
  function SwitchedCorrection(y: int, m: int, day: int): int {
    if y == 1582 then (if m > 10 || (m == 10 && day > 4) then -10 else 0)
    else if y < 1583 then 0
    else CenturyCorrection(y)
  }

  /** The day number of a date written in the proleptic Gregorian calendar. */
  function GregorianToJd(date: Date): int {
    JulianCount(date) + CenturyCorrection(ShiftedYear(date)) - 1524
  }

  /** The day number `basecal` gives to a date. */
  function CivilToJd(date: Date): int {
    JulianCount(date) + SwitchedCorrection(ShiftedYear(date), ShiftedMonth(date), date.day) - 1524
  }

  /** The date with shifted year `cc - 4716` and shifted month `ee - 1`. */
  function Unshift(cc: int, ee: int, day: int): Date {
    if ee > 13 then Date(cc + 1 - 4716, ee - 13, day) else Date(cc - 4716, ee - 1, day)
  }

  function FromDayCount(bb: int): Date {
    var cc := (20 * bb - 2442) / 7305;
    var dd := 1461 * cc / 4;
    var ee := 10000 * (bb - dd) / 306001;
    Unshift(cc, ee, bb - dd - 306001 * ee / 10000)
  }

  function CenturyIndex(jd: int): int {
    (4 * jd - 7468865) / 146097
  }

  function GregorianFromJd(jd: int): Date {
    var a := CenturyIndex(jd);
    FromDayCount(jd + 1 + a - a / 4 + 1524)
  }

  /** The civil date `basecal` reads back from a day number. */
  function CivilFromJd(jd: int): Date {
    if jd > 2299160 then GregorianFromJd(jd) else FromDayCount(jd + 1524)
  }

  // ---------- Day counts and the Julian rule ----------

  /** What a shifted month contributes: the table behind the constant 30.6001. */
  function MonthOffset(m: int): int {
    306001 * (m + 1) / 10000
  }

  lemma MonthOffsetTable(m: int)
    requires 3 <= m <= 14
    ensures MonthOffset(m) == [122, 153, 183, 214, 244, 275, 306, 336, 367, 397, 428, 459][m - 3]
  {
  }

  /** The month search inverts the month table. */
  lemma MonthSearch(m: int, day: int)
    requires 3 <= m <= 14 && 1 <= day
    requires day <= SHIFTED_MONTH_LENGTHS[m - 3]
    ensures 10000 * (MonthOffset(m) + day) / 306001 == m + 1
  {
    MonthOffsetTable(m);
  }

  /** The year search inverts the year term; day 29 February is only there in a leap year. */
  lemma YearSearch(c: int, e: int)
    requires 123 <= e <= 487 || (e == 488 && c % 4 == 3)
    ensures (20 * (1461 * c / 4 + e) - 2442) / 7305 == c
  {
    assert 4 * (1461 * c / 4) == 1461 * c - c % 4;
  }

  lemma YearFound(bb: int)
    ensures var c := (20 * bb - 2442) / 7305;
            var e := bb - 1461 * c / 4;
            123 <= e <= 488 && (e == 488 ==> c % 4 == 3)
  {
    var c := (20 * bb - 2442) / 7305;
    assert 4 * (1461 * c / 4) == 1461 * c - c % 4;
  }

  const SHIFTED_MONTH_LENGTHS := [31, 30, 31, 30, 31, 31, 30, 31, 30, 31, 31, 29]

  lemma MonthAndDay(e: int)
    requires 123 <= e <= 488
    ensures var ee := 10000 * e / 306001;
            && 4 <= ee <= 15
            && 1 <= e - 306001 * ee / 10000 <= SHIFTED_MONTH_LENGTHS[ee - 4]
            && (ee == 15 && e - 306001 * ee / 10000 == 29 ==> e == 488)
  {
    var ee := 10000 * e / 306001;
    assert 4 <= ee <= 15;
    MonthOffsetTable(ee - 1);
    if ee < 15 {
      MonthOffsetTable(ee);
    }
  }

  /** Shifting undoes unshifting, and a shifted month's days are the Julian ones. */
  lemma ShiftUnshift(cc: int, ee: int, day: int)
    requires 4 <= ee <= 15 && 1 <= day <= SHIFTED_MONTH_LENGTHS[ee - 4]
    requires ee == 15 && day == 29 ==> cc % 4 == 3
    ensures var date := Unshift(cc, ee, day);
            ShiftedYear(date) == cc - 4716 && ShiftedMonth(date) == ee - 1 && ValidJulian(date)
  {
    assert 4716 % 4 == 0;
  }

  lemma UnshiftShift(date: Date)
    requires ValidJulian(date)
    ensures var c, m := ShiftedYear(date) + 4716, ShiftedMonth(date);
            && Unshift(c, m + 1, date.day) == date
            && 3 <= m <= 14 && date.day <= SHIFTED_MONTH_LENGTHS[m - 3]
            && (m == 14 && date.day == 29 ==> c % 4 == 3)
  {
  }

  lemma FromDayCountInverts(date: Date)
    requires ValidJulian(date)
    ensures FromDayCount(JulianCount(date)) == date
  {
    var c, m := ShiftedYear(date) + 4716, ShiftedMonth(date);
    UnshiftShift(date);
    MonthOffsetTable(m);
    YearSearch(c, MonthOffset(m) + date.day);
    MonthSearch(m, date.day);
  }

  /** Every count is the count of a valid Julian date, namely of the one it decodes to. */
  lemma DayCountInverts(bb: int)
    ensures ValidJulian(FromDayCount(bb))
    ensures JulianCount(FromDayCount(bb)) == bb
  {
    var c := (20 * bb - 2442) / 7305;
    var e := bb - 1461 * c / 4;
    var ee := 10000 * e / 306001;
    YearFound(bb);
    MonthAndDay(e);
    ShiftUnshift(c, ee, e - 306001 * ee / 10000);
  }

  // ---------- The Gregorian rule ----------

  /** The Gregorian day number of 1 March of year 100 * a. */
  function CenturyStart(a: int): int {
    36524 * a + a / 4 + 1721120
  }

  lemma CenturyIndexIs(a: int, jd: int)
    requires CenturyStart(a) <= jd < CenturyStart(a + 1)
    ensures CenturyIndex(jd) == a - 4
  {
    assert 4 * (a / 4) == a - a % 4;
    assert 4 * ((a + 1) / 4) == a + 1 - (a + 1) % 4;
  }

  lemma YearTermByCentury(y: int)
    ensures 1461 * (y + 4716) / 4 == 36525 * (y / 100) + 1722519 + 1461 * (y % 100) / 4
    ensures 0 <= 1461 * (y % 100) / 4 <= 36159
    ensures 1461 * (y % 100) / 4 == 36159 <==> y % 100 == 99
  {
    assert y == 100 * (y / 100) + y % 100;
  }

  /** The days of a date since the first March of its century. */
  function DayInCentury(date: Date): int {
    1461 * (ShiftedYear(date) % 100) / 4 + MonthOffset(ShiftedMonth(date)) + date.day
  }

  /** Only 29 February of a century's last shifted year reaches the last count of a century. */
  lemma DayInCenturyBounds(date: Date)
    requires ValidJulian(date)
    ensures 123 <= DayInCentury(date) <= 36647
    ensures DayInCentury(date) == 36647
       <==> date.month == 2 && date.day == 29 && ShiftedYear(date) % 100 == 99
    ensures JulianCount(date) == 36525 * (ShiftedYear(date) / 100) + 1722519 + DayInCentury(date)
  {
    MonthOffsetTable(ShiftedMonth(date));
    YearTermByCentury(ShiftedYear(date));
  }

  lemma CenturyStartStep(a: int)
    ensures CenturyStart(a + 1) == CenturyStart(a) + if (a + 1) % 4 == 0 then 36525 else 36524
  {
  }

  lemma InsideCentury(date: Date)
    requires ValidGregorian(date)
    ensures var a := ShiftedYear(date) / 100;
            CenturyStart(a) <= GregorianToJd(date) < CenturyStart(a + 1)
  {
    DayInCenturyBounds(date);
    CenturyStartStep(ShiftedYear(date) / 100);
    if date.month == 2 && date.day == 29 && ShiftedYear(date) % 100 == 99 {
      LeapAtCenturyEnd(date);
    }
  }

  lemma LeapAtCenturyEnd(date: Date)
    requires ValidGregorian(date) && date.month == 2 && date.day == 29 && ShiftedYear(date) % 100 == 99
    ensures (ShiftedYear(date) / 100 + 1) % 4 == 0
  {
    LeapByCentury(date.year);
  }

  /** Gregorian round trip, for every year. */
  lemma GregorianFromJdInverts(date: Date)
    requires ValidGregorian(date)
    ensures GregorianFromJd(GregorianToJd(date)) == date
  {
    hide JulianCount, FromDayCount, CenturyStart, CenturyIndex;
    InsideCentury(date);
    var a := ShiftedYear(date) / 100;
    CenturyIndexIs(a, GregorianToJd(date));
    assert (a - 4) / 4 == a / 4 - 1;
    FromDayCountInverts(date);
  }

  /** A Julian date whose count falls in Gregorian century `a` has its shifted year in that century,
    and is a Gregorian date too. */
  lemma CountInCentury(date: Date, a: int)
    requires ValidJulian(date)
    requires CenturyStart(a) <= JulianCount(date) + 2 - a + a / 4 - 1524 < CenturyStart(a + 1)
    ensures ShiftedYear(date) / 100 == a && ValidGregorian(date)
  {
    DayInCenturyBounds(date);
    CenturyStartStep(a);
    var k, t := ShiftedYear(date) / 100, DayInCentury(date);
    assert 36525 * a + 123 <= 36525 * k + t;
    assert 36525 * k + t < 36525 * a + 36647 + if (a + 1) % 4 == 0 then 1 else 0;
    SameCentury(k, t, a);
    NotDroppedLeapDay(date);
  }

  lemma SameCentury(k: int, t: int, a: int)
    requires 123 <= t <= 36647 && 36525 * a + 123 <= 36525 * k + t < 36525 * a + 36648
    ensures k == a
  {
  }

  lemma NotDroppedLeapDay(date: Date)
    requires ValidJulian(date)
    requires date.month == 2 && date.day == 29 && ShiftedYear(date) % 100 == 99
             ==> (ShiftedYear(date) / 100 + 1) % 4 == 0
    ensures ValidGregorian(date)
  {
    if date.month == 2 && date.day == 29 {
      LeapByCentury(date.year);
    }
  }

  lemma LeapByCentury(year: int)
    ensures year % 100 == 0 <==> (year - 1) % 100 == 99
    ensures year % 100 == 0 ==> (year % 400 == 0 <==> ((year - 1) / 100 + 1) % 4 == 0)
  {
    var k, r := (year - 1) / 100, (year - 1) % 100;
    assert year == 100 * k + r + 1;
    if r == 99 {
      assert year == 100 * (k + 1);
      assert (k + 1) == 4 * ((k + 1) / 4) + (k + 1) % 4;
    }
  }

  /** Every integer is the Gregorian day number of a valid Gregorian date, the one it decodes to. */
  lemma GregorianToJdInverts(jd: int)
    ensures ValidGregorian(GregorianFromJd(jd))
    ensures GregorianToJd(GregorianFromJd(jd)) == jd
  {
    var a := CenturyIndex(jd) + 4;
    InCentury(jd);
    assert (a - 4) / 4 == a / 4 - 1;
    DayCountInverts(jd + 1 + (a - 4) - (a - 4) / 4 + 1524);
    CountInCentury(GregorianFromJd(jd), a);
  }

  lemma InCentury(jd: int)
    ensures var a := CenturyIndex(jd) + 4;
            CenturyStart(a) <= jd < CenturyStart(a + 1)
  {
    var a := CenturyIndex(jd) + 4;
    assert 4 * (a / 4) == a - a % 4;
    assert 4 * ((a + 1) / 4) == a + 1 - (a + 1) % 4;
  }

  // ---------- The switched calendar ----------

  /** Day numbers from 2299161 on belong to the dates from 15 October 1582 on, and to no other. */
  lemma SwitchDay(date: Date)
    requires ValidCivil(date)
    ensures CivilToJd(date) > 2299160 <==> AfterSwitch(date)
    ensures AfterSwitch(date) ==> ValidGregorian(date) && CivilToJd(date) == GregorianToJd(date)
    ensures !AfterSwitch(date) ==> ValidJulian(date) && CivilToJd(date) == JulianCount(date) - 1524
  {
    var y, m := ShiftedYear(date), ShiftedMonth(date);
    MonthOffsetTable(m);
    if AfterSwitch(date) && y > 1582 {
      InsideCentury(date);
    }
  }

  /** Civil round trip: encoding a valid date, of any year, and decoding it gives the date back. */
  lemma CivilRoundTrip(date: Date)
    requires ValidCivil(date)
    ensures CivilFromJd(CivilToJd(date)) == date
  {
    hide GregorianFromJd, GregorianToJd, FromDayCount, JulianCount;
    SwitchDay(date);
    if AfterSwitch(date) {
      GregorianFromJdInverts(date);
    } else {
      FromDayCountInverts(date);
    }
  }

  /** Every day number decodes to a valid civil date, and that date encodes back to it. */
  lemma JdRoundTrip(jd: int)
    ensures ValidCivil(CivilFromJd(jd))
    ensures CivilToJd(CivilFromJd(jd)) == jd
  {
    hide GregorianFromJd, GregorianToJd, FromDayCount, JulianCount;
    var date := CivilFromJd(jd);
    if jd > 2299160 {
      GregorianToJdInverts(jd);
      GregorianAfterSwitch(date);
    } else {
      DayCountInverts(jd + 1524);
      JulianBeforeSwitch(date);
    }
  }

  lemma GregorianAfterSwitch(date: Date)
    requires ValidGregorian(date) && GregorianToJd(date) > 2299160
    ensures ValidCivil(date) && AfterSwitch(date) && CivilToJd(date) == GregorianToJd(date)
  {
    MonthOffsetTable(ShiftedMonth(date));
  }

  lemma JulianBeforeSwitch(date: Date)
    requires ValidJulian(date) && JulianCount(date) - 1524 <= 2299160
    ensures ValidCivil(date) && !AfterSwitch(date) && CivilToJd(date) == JulianCount(date) - 1524
  {
    MonthOffsetTable(ShiftedMonth(date));
  }

  /** The round trip holds for the valid civil dates and for nothing else. */
  lemma CivilRoundTripExactly(date: Date)
    ensures CivilFromJd(CivilToJd(date)) == date <==> ValidCivil(date)
  {
    hide *;
    if ValidCivil(date) {
      CivilRoundTrip(date);
    }
    JdRoundTrip(CivilToJd(date));
  }

  /** The Julian date ten days before a dropped day. */
  function TenDaysBefore(date: Date): Date {
    if date.day > 10 then Date(1582, 10, date.day - 10) else Date(1582, 9, date.day + 20)
  }

  lemma DroppedDay(date: Date)
    requires Dropped(date)
    ensures ValidCivil(TenDaysBefore(date))
    ensures CivilToJd(date) == CivilToJd(TenDaysBefore(date))
  {
  }

  /** Among the dates a `Date` object can hold (proleptic Gregorian), the round trip fails exactly for
    the ten dropped days, each of which comes back as the date ten days before it. */
  lemma DroppedDaysExactly(date: Date)
    requires ValidGregorian(date)
    ensures CivilFromJd(CivilToJd(date)) != date <==> Dropped(date)
    ensures Dropped(date) ==> CivilFromJd(CivilToJd(date)) == TenDaysBefore(date)
  {
    hide CivilFromJd, CivilToJd;
    CivilRoundTripExactly(date);
    LeapRules(date.year);
    if Dropped(date) {
      DroppedDay(date);
      CivilRoundTrip(TenDaysBefore(date));
    }
  }

  /** A day number is shared exactly by a dropped day and the date ten days before it. */
  lemma SharedDayNumber(d1: Date, d2: Date)
    requires ValidCivil(d1) && ValidGregorian(d2)
    ensures CivilToJd(d1) == CivilToJd(d2) <==> d1 == d2 || (Dropped(d2) && d1 == TenDaysBefore(d2))
  {
    hide CivilFromJd, CivilToJd;
    CivilRoundTrip(d1);
    if Dropped(d2) {
      DroppedDay(d2);
      CivilRoundTrip(TenDaysBefore(d2));
    } else {
      LeapRules(d2.year);
      CivilRoundTrip(d2);
    }
  }

  lemma LeapRules(year: int)
    ensures GregorianLeap(year) ==> CivilLeap(year)
    ensures CivilLeap(1582) == GregorianLeap(1582)
  {
  }

  /** What one day adds to the Julian count: one, or two where a leap day is skipped. */
  lemma CountSuccessor(leap: bool, date: Date)
    requires Fits(leap, date) && (leap ==> JulianLeap(date.year))
    ensures JulianCount(DayAfter(leap, date)) - JulianCount(date)
         == if FebruaryEnds(leap, date) && !leap && JulianLeap(date.year) then 2 else 1
  {
    var next := DayAfter(leap, date);
    if date.day == MonthLength(leap, date.month) {
      MonthOffsetTable(ShiftedMonth(date));
      MonthOffsetTable(ShiftedMonth(next));
      if date.month == 2 {
        YearStep(ShiftedYear(date));
      }
    }
  }

  lemma YearStep(y: int)
    ensures 1461 * (y + 1 + 4716) / 4 - 1461 * (y + 4716) / 4 == if y % 4 == 3 then 366 else 365
  {
    assert 4 * (1461 * (y + 4716) / 4) == 1461 * (y + 4716) - y % 4;
  }

  lemma CorrectionStep(y: int)
    ensures CenturyCorrection(y + 1) - CenturyCorrection(y)
         == if (y + 1) % 100 == 0 && (y + 1) % 400 != 0 then -1 else 0
  {
    assert (y + 1) / 100 == if (y + 1) % 100 == 0 then y / 100 + 1 else y / 100;
  }

  lemma DayAfterFits(leap: bool, nextLeap: bool, date: Date)
    requires Fits(leap, date)
    requires date.month < 12 ==> nextLeap == leap
    ensures Fits(nextLeap, DayAfter(leap, date))
  {
  }

  predicate FebruaryEnds(leap: bool, date: Date) {
    date.month == 2 && date.day == MonthLength(leap, 2)
  }

  lemma ShiftedYearStep(leap: bool, date: Date)
    requires Fits(leap, date)
    ensures ShiftedYear(DayAfter(leap, date))
         == if FebruaryEnds(leap, date) then ShiftedYear(date) + 1 else ShiftedYear(date)
    ensures FebruaryEnds(leap, date) ==> ShiftedYear(date) == date.year - 1
  {
  }

  lemma CenturyYears(year: int)
    ensures GregorianLeap(year) <==> JulianLeap(year) && !(year % 100 == 0 && year % 400 != 0)
    ensures year % 100 == 0 ==> JulianLeap(year)
  {
    assert year == 100 * (year / 100) + year % 100;
    assert year == 400 * (year / 400) + year % 400;
  }

  /** The next Gregorian day has the next Gregorian day number. */
  lemma GregorianSuccessor(date: Date)
    requires ValidGregorian(date)
    ensures var next := DayAfter(GregorianLeap(date.year), date);
            ValidGregorian(next) && GregorianToJd(next) == GregorianToJd(date) + 1
  {
    hide JulianCount, ShiftedYear, DayAfter, CenturyCorrection, FebruaryEnds, JulianLeap, GregorianLeap;
    var leap := GregorianLeap(date.year);
    var next := DayAfter(leap, date);
    NextYearLeap(leap, date);
    DayAfterFits(leap, GregorianLeap(next.year), date);
    CenturyYears(date.year);
    CountSuccessor(leap, date);
    ShiftedYearStep(leap, date);
    CorrectionStep(date.year - 1);
  }

  lemma NextYearLeap(leap: bool, date: Date)
    requires Fits(leap, date)
    ensures date.month < 12 ==> DayAfter(leap, date).year == date.year
  {
  }

  /** The next civil day has the next day number: across month ends, leap days, 4 October 1582 and
    the centuries that are not leap years. */
  lemma CivilSuccessor(date: Date)
    requires ValidCivil(date)
    ensures ValidCivil(NextCivil(date))
    ensures CivilToJd(NextCivil(date)) == CivilToJd(date) + 1
  {
    hide JulianCount, GregorianToJd;
    SwitchDay(date);
    SwitchDay(NextCivil(date));
    if AfterSwitch(date) {
      GregorianSuccessor(date);
    } else if date != Date(1582, 10, 4) {
      CountSuccessor(JulianLeap(date.year), date);
    } else {
      SwitchStep();
    }
  }

  /** The next day of a `Date` object. */
  function NextGregorian(date: Date): Date {
    DayAfter(GregorianLeap(date.year), date)
  }

  /** The days after which a `Date` object and the switched calendar part: the last Julian day, and 28 February
    of a year that only the Julian calendar lengthens. */
  predicate Skips(date: Date) {
    || date == Date(1582, 10, 4)
    || (date.year < 1582 && date.month == 2 && date.day == 28 && JulianLeap(date.year) && !GregorianLeap(date.year))
  }

  /** The next day of a `Date` object has the next day number exactly where the calendars do not part. */
  lemma NextGregorianExactly(date: Date)
    requires ValidGregorian(date)
    ensures CivilToJd(NextGregorian(date)) == CivilToJd(date) + 1 <==> !Skips(date)
  {
    LeapRules(date.year);
    if Dropped(date) || date == Date(1582, 10, 4) {
      AroundTheSwitch(date);
    } else {
      hide CivilToJd;
      CivilSuccessor(date);
      if Skips(date) {
        CivilSuccessor(NextCivil(date));
        assert NextCivil(NextCivil(date)) == NextGregorian(date);
      } else {
        assert NextCivil(date) == NextGregorian(date);
      }
    }
  }

  lemma AroundTheSwitch(date: Date)
    requires date == Date(1582, 10, 4) || Dropped(date)
    ensures CivilToJd(NextGregorian(date)) == if date.day == 4 then CivilToJd(date) - 9 else CivilToJd(date) + 1
  {
  }

  lemma SwitchStep()
    ensures CivilToJd(Date(1582, 10, 15)) == CivilToJd(Date(1582, 10, 4)) + 1
  {
  }

  /** Consecutive day numbers decode to consecutive civil dates. */
  lemma CivilNextJd(jd: int)
    ensures CivilFromJd(jd + 1) == NextCivil(CivilFromJd(jd))
  {
    hide *;
    JdRoundTrip(jd);
    CivilSuccessor(CivilFromJd(jd));
    CivilRoundTrip(NextCivil(CivilFromJd(jd)));
  }

  const MILLENNIUM := Date(2000, 1, 1)

  /** The day number is the only numbering of the civil dates that grows by one a day and gives
    1 January 2000 the number 2451545. */
  lemma OnlyDayNumbering(number: Date -> int, date: Date)
    requires forall d {:trigger NextCivil(d)} | ValidCivil(d) :: number(NextCivil(d)) == number(d) + 1
    requires number(MILLENNIUM) == 2451545
    requires ValidCivil(date)
    ensures number(date) == CivilToJd(date)
  {
    hide *;
    CivilRoundTrip(date);
    NumberingAtJd(number, CivilToJd(date));
  }

  lemma NumberingStep(number: Date -> int, jd: int)
    requires forall d {:trigger NextCivil(d)} | ValidCivil(d) :: number(NextCivil(d)) == number(d) + 1
    ensures number(CivilFromJd(jd + 1)) == number(CivilFromJd(jd)) + 1
  {
    hide *;
    JdRoundTrip(jd);
    CivilNextJd(jd);
  }

  lemma {:induction false} NumberingAtJd(number: Date -> int, jd: int)
    requires forall d {:trigger NextCivil(d)} | ValidCivil(d) :: number(NextCivil(d)) == number(d) + 1
    requires number(MILLENNIUM) == 2451545
    ensures number(CivilFromJd(jd)) == jd
    decreases if jd < 2451545 then 2451545 - jd else jd - 2451545
  {
    if jd < 2451545 {
      NumberingAtJd(number, jd + 1);
      NumberingStep(number, jd);
    } else if jd > 2451545 {
      NumberingAtJd(number, jd - 1);
      NumberingStep(number, jd - 1);
    } else {
      MillenniumJd();
    }
  }

  lemma MillenniumJd()
    ensures CivilToJd(MILLENNIUM) == 2451545 && CivilFromJd(2451545) == MILLENNIUM
  {
    assert DayCount(1999, 13, 1) == 2453082;
    assert CenturyCorrection(1999) == -13;
    CivilRoundTrip(MILLENNIUM);
  }
}
