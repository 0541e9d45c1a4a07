/** The JavaScript `Date` object, read in UTC: a day counted from 1 January 1970 and a time within that day.
  Setters normalise out-of-range months and days exactly as ECMAScript's MakeDay does. */
module JsDates {
  import opened CivilCalendar

  const UNIX_EPOCH_JD := 2440588
  const MS_PER_DAY := 86400000

  function DayOf(date: Date): int {
    GregorianToJd(date) - UNIX_EPOCH_JD
  }

  function DateOfDay(day: int): Date {
    GregorianFromJd(day + UNIX_EPOCH_JD)
  }

  /** 0 for Sunday; 1 January 1970 was a Thursday. */
  function Weekday(day: int): int {
    (day + 4) % 7
  }

  /** Months are numbered in one line across the years: January of year 0 is month 0. */
  function MonthIndex(date: Date): int {
    12 * date.year + date.month - 1
  }

  function DateInMonth(monthIndex: int, day: int): Date {
    Date(monthIndex / 12, monthIndex % 12 + 1, day)
  }

  function LengthOfMonth(monthIndex: int): int {
    MonthLength(GregorianLeap(monthIndex / 12), monthIndex % 12 + 1)
  }

  /** ECMAScript's MakeDay: month 12 is January of the next year, day 0 the last day of the month before. */
  function MakeDay(monthIndex: int, day: int): int {
    DayOf(DateInMonth(monthIndex, 1)) + day - 1
  }

  class JsDate {
    var day: int
    var ms: int

    constructor (day: int, ms: int)
      ensures this.day == day && this.ms == ms
    {
      this.day, this.ms := day, ms;
    }

    function GetDate(): int
      reads this
    {
      DateOfDay(day).day
    }

    function GetMonth(): int
      reads this
    {
      DateOfDay(day).month - 1
    }

    function GetFullYear(): int
      reads this
    {
      DateOfDay(day).year
    }

    function GetDay(): int
      reads this
    {
      Weekday(day)
    }

    /** Setting the day of the month moves the date by the difference, over month ends if need be. */
    method SetDate(date: int)
      modifies this
      ensures day == old(day) + date - old(GetDate()) && ms == old(ms)
    {
      hide GregorianToJd, GregorianFromJd;
      ghost var was := GetDate();
      DayOfMonth(day);
      day := MakeDay(12 * GetFullYear() + GetMonth(), date);
      assert day == MakeDay(old(12 * GetFullYear() + GetMonth()), was) + date - was;
    }

    method SetMonth(month: int)
      modifies this
      ensures day == MakeDay(12 * old(GetFullYear()) + month, old(GetDate())) && ms == old(ms)
    {
      day := MakeDay(12 * GetFullYear() + month, GetDate());
    }

    method SetFullYear(year: int)
      modifies this
      ensures day == MakeDay(12 * year + old(GetMonth()), old(GetDate())) && ms == old(ms)
    {
      day := MakeDay(12 * year + GetMonth(), GetDate());
    }

    method SetTime(time: int)
      modifies this
      ensures ms == time && day == old(day)
    {
      ms := time;
    }
  }

  // ---------- Reading back what MakeDay builds ----------

  lemma DateRoundTrips(day: int)
    ensures ValidGregorian(DateOfDay(day)) && DayOf(DateOfDay(day)) == day
  {
    GregorianToJdInverts(day + UNIX_EPOCH_JD);
  }

  lemma DayRoundTrips(date: Date)
    requires ValidGregorian(date)
    ensures DateOfDay(DayOf(date)) == date
  {
    GregorianFromJdInverts(date);
  }

  lemma MonthIndexInverts(date: Date)
    requires 1 <= date.month <= 12
    ensures DateInMonth(MonthIndex(date), date.day) == date
    ensures LengthOfMonth(MonthIndex(date)) == MonthLength(GregorianLeap(date.year), date.month)
  {
    assert (12 * date.year + (date.month - 1)) / 12 == date.year;
  }

  /** Within a month, day numbers follow the day of the month. */
  lemma FirstOfMonth(year: int, month: int, day: int)
    ensures DayOf(Date(year, month, day)) == DayOf(Date(year, month, 1)) + day - 1
  {
  }

  lemma MakeDayOf(monthIndex: int, day: int)
    ensures MakeDay(monthIndex, day) == DayOf(DateInMonth(monthIndex, day))
  {
    FirstOfMonth(monthIndex / 12, monthIndex % 12 + 1, day);
  }

  lemma DayOfMonth(day: int)
    ensures var date := DateOfDay(day);
            MakeDay(MonthIndex(date), date.day) == day
  {
    hide GregorianToJd, GregorianFromJd;
    var date := DateOfDay(day);
    DateRoundTrips(day);
    MonthIndexInverts(date);
    MakeDayOf(MonthIndex(date), date.day);
  }

  lemma InMonth(monthIndex: int, date: int)
    requires 1 <= date <= LengthOfMonth(monthIndex)
    ensures DateOfDay(MakeDay(monthIndex, date)) == DateInMonth(monthIndex, date)
  {
    hide GregorianToJd, GregorianFromJd;
    MakeDayOf(monthIndex, date);
    DayRoundTrips(DateInMonth(monthIndex, date));
  }

  /** The month after a month, in the calendar. */
  lemma DayAfterMonth(monthIndex: int)
    ensures DayAfter(GregorianLeap(monthIndex / 12), DateInMonth(monthIndex, LengthOfMonth(monthIndex)))
         == DateInMonth(monthIndex + 1, 1)
  {
    assert (monthIndex + 1) / 12 == if monthIndex % 12 == 11 then monthIndex / 12 + 1 else monthIndex / 12;
  }

  /** Day numbers run on from one month to the next. */
  lemma NextMonth(monthIndex: int)
    ensures MakeDay(monthIndex + 1, 1) == MakeDay(monthIndex, LengthOfMonth(monthIndex)) + 1
  {
    GregorianSuccessor(DateInMonth(monthIndex, LengthOfMonth(monthIndex)));
    DayAfterMonth(monthIndex);
    MakeDayOf(monthIndex, LengthOfMonth(monthIndex));
    MakeDayOf(monthIndex + 1, 1);
  }

  /** A day past the end of a month overflows into the next one. */
  lemma Overflow(monthIndex: int, date: int)
    requires LengthOfMonth(monthIndex) < date <= 31
    ensures 1 <= date - LengthOfMonth(monthIndex) <= 3
    ensures DateOfDay(MakeDay(monthIndex, date))
         == DateInMonth(monthIndex + 1, date - LengthOfMonth(monthIndex))
  {
    hide GregorianToJd, GregorianFromJd;
    var length := LengthOfMonth(monthIndex);
    assert 28 <= length && 31 <= LengthOfMonth(monthIndex) + 3;
    assert MakeDay(monthIndex, date) == MakeDay(monthIndex + 1, date - length) by {
      NextMonth(monthIndex);
    }
    InMonth(monthIndex + 1, date - length);
  }

  /** The weekday of a `Date` object agrees with the day number of `basecal` exactly from the switch on, and in
    the centuries before in which the two calendars are whole weeks apart. */
  lemma WeekdayFromJd(date: Date)
    requires ValidGregorian(date)
    ensures Weekday(DayOf(date)) == (CivilToJd(date) + 1) % 7
       <==> AfterSwitch(date) || CenturyCorrection(ShiftedYear(date)) % 7 == 0
  {
    hide CenturyCorrection, JulianCount;
    var correction := CenturyCorrection(ShiftedYear(date));
    var applied := SwitchedCorrection(ShiftedYear(date), ShiftedMonth(date), date.day);
    CorrectionBySwitch(date);
    assert DayOf(date) + 4 == CivilToJd(date) + 1 - 2440585 + (correction - applied);
    SameRemainder(CivilToJd(date) + 1, DayOf(date) + 4);
  }

  lemma CorrectionBySwitch(date: Date)
    requires ValidGregorian(date)
    ensures SwitchedCorrection(ShiftedYear(date), ShiftedMonth(date), date.day)
         == if AfterSwitch(date) then CenturyCorrection(ShiftedYear(date)) else 0
  {
  }

  lemma SameRemainder(a: int, b: int)
    ensures a % 7 == b % 7 <==> (b - a) % 7 == 0
  {
  }

  /** On the last Julian day, 4 October 1582, the two differ: a Monday by the object, a Thursday by the number. */
  lemma WeekdayBeforeTheSwitch()
    ensures var date := Date(1582, 10, 4);
            Weekday(DayOf(date)) == 1 && (CivilToJd(date) + 1) % 7 == 4
  {
  }
}
