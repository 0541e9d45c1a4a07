/** `getDateRange` and `getWeekBounds`: the dashboard's lists of days, weeks, months and years. */
module DateRange {
  import opened CivilCalendar
  import opened JsDates

  // ---------- What the lists should hold ----------

  /** The last day of a month. */
  function LastOf(monthIndex: int): Date {
    DateInMonth(monthIndex, LengthOfMonth(monthIndex))
  }

  /** The same day `i` months earlier, or the last day of that month if it is too short. */
  function MonthsBefore(today: Date, i: int): Date {
    var t := MonthIndex(today) - i;
    if today.day <= LengthOfMonth(t) then DateInMonth(t, today.day) else LastOf(t)
  }

  /** When month mode finds the right month: up to twelve months past the start of this year, and later
    only where the day overflows. */
  predicate MonthModeRight(today: Date, i: int) {
    i <= today.month - 1 + 12 || today.day > LengthOfMonth(MonthIndex(today) - i)
  }

  /** Entry `i`, counted back from today, for each kind of range. */
  function MonthEntry(today: Date, i: int): Date {
    if MonthModeRight(today, i) then MonthsBefore(today, i) else LastOf(MonthIndex(today) - i - 1)
  }

  function WeekStart(day: int): int {
    day - Weekday(day)
  }

  /** The years whose ISO text starts with exactly four digits. */
  predicate FourDigitYear(day: int) {
    0 <= DateOfDay(day).year <= 9999
  }

  /** The first ten characters of a day's ISO text, read back: the day itself, or the first of its month where
    the year takes a sign and six digits and only the month fits in. */
  function FromIsoText(day: int): int {
    if FourDigitYear(day) then day else day - (DateOfDay(day).day - 1)
  }

  /** When the text of a day still tells its week. */
  predicate WeekTextRight(day: int) {
    FourDigitYear(day) || DateOfDay(day).day - 1 <= Weekday(day)
  }

  function WeekEntry(today: int, i: nat): int {
    WeekStart(FromIsoText(if i == 0 then today else WeekEntry(today, i - 1) - 1))
  }

  function RangeEntry(kind: string, today: int, i: nat): int {
    var date := DateOfDay(today);
    if kind == "month" then DayOf(MonthEntry(date, i))
    else if kind == "year" then MakeDay(MonthIndex(date) - 12 * i, date.day)
    else if kind == "day" then today - i
    else WeekEntry(today, i)
  }

  // ---------- The week of a day ----------

  /** The Sunday midnight at or before the input, as far as its ISO text tells, and the last millisecond of the
    Saturday after that. The input is in this week exactly when its year has four digits or the first of its
    month is in the same week. */
  method GetWeekBounds(inputDate: JsDate) returns (weekStart: JsDate, weekEnd: JsDate)
    ensures fresh(weekStart) && fresh(weekEnd) && weekStart != weekEnd
    ensures weekStart.day <= inputDate.day
    ensures inputDate.day <= weekStart.day + 6 <==> WeekTextRight(inputDate.day)
    ensures weekStart.GetDay() == 0 && weekStart.ms == 0
    ensures weekEnd.day == weekStart.day + 6 && weekEnd.ms == MS_PER_DAY - 1
    ensures weekStart.day == WeekStart(FromIsoText(inputDate.day))
  {
    hide DateOfDay, DayOf, MakeDay;
    DateRoundTrips(inputDate.day);
    var tmpDate := new JsDate(FromIsoText(inputDate.day), 0);
    var fdIndex := tmpDate.GetDay();
    tmpDate.SetDate(tmpDate.GetDate() - fdIndex);
    weekStart := new JsDate(tmpDate.day, tmpDate.ms);
    weekStart.SetTime(0);
    weekEnd := new JsDate(weekStart.day, weekStart.ms);
    weekEnd.SetDate(weekEnd.GetDate() + 6);
    weekEnd.SetTime(MS_PER_DAY - 1);
  }

  // ---------- Month mode ----------

  /** Going back by days inside a month. */
  lemma BackInMonth(day: int, k: int)
    requires 0 <= k < DateOfDay(day).day
    ensures DateOfDay(day - k) == DateOfDay(day).(day := DateOfDay(day).day - k)
  {
    hide GregorianToJd, GregorianFromJd;
    var date := DateOfDay(day);
    DateRoundTrips(day);
    DayOfMonth(day);
    MonthIndexInverts(date);
    InMonth(MonthIndex(date), date.day - k);
  }

  /** Going back by as many days as the day of the month leads to the end of the month before. */
  lemma BackOverMonth(day: int)
    ensures DateOfDay(day - DateOfDay(day).day) == LastOf(MonthIndex(DateOfDay(day)) - 1)
  {
    hide GregorianToJd, GregorianFromJd;
    var date := DateOfDay(day);
    var t := MonthIndex(date) - 1;
    DateRoundTrips(day);
    DayOfMonth(day);
    NextMonth(t);
    InMonth(t, LengthOfMonth(t));
  }

  lemma MonthBefore(date: Date)
    requires 1 <= date.month <= 12
    ensures LastOf(MonthIndex(date) - 1).month != date.month
  {
    MonthIndexInverts(date);
  }

  /** The correction loop: from any date it steps back to the last day of the month before, in as many steps
    as the day of the month. */
  method BackToMonthBefore(dtObj: JsDate, actm: int) returns (ghost steps: nat)
    requires dtObj.GetMonth() == actm
    modifies dtObj
    ensures steps == old(dtObj.GetDate())
    ensures DateOfDay(dtObj.day) == LastOf(MonthIndex(DateOfDay(old(dtObj.day))) - 1)
    ensures dtObj.ms == old(dtObj.ms)
  {
    hide GregorianToJd, GregorianFromJd;
    ghost var start := dtObj.day;
    ghost var date := DateOfDay(start);
    DateRoundTrips(start);
    BackOverMonth(start);
    MonthBefore(date);
    steps := 0;
    while dtObj.GetMonth() == actm
      invariant 0 <= steps <= date.day
      invariant dtObj.day == start - steps && dtObj.ms == old(dtObj.ms)
      invariant dtObj.GetMonth() == actm ==> steps < date.day
      invariant dtObj.GetMonth() != actm ==> steps == date.day
      decreases date.day - steps
    {
      dtObj.SetDate(dtObj.GetDate() - 1);
      steps := steps + 1;
      if steps < date.day {
        BackInMonth(start, steps);
      }
    }
  }

  function SteppedTo(today: Date, monthIndex: int): Date {
    if today.day <= LengthOfMonth(monthIndex) then DateInMonth(monthIndex, today.day)
    else DateInMonth(monthIndex + 1, today.day - LengthOfMonth(monthIndex))
  }

  /** Where stepping back `i` months lands before any correction: on the same day of the month `i` before,
    or up to three days into the month after that one. */
  lemma SteppedBack(today: Date, i: int)
    requires ValidGregorian(today)
    ensures DateOfDay(MakeDay(MonthIndex(today) - i, today.day)) == SteppedTo(today, MonthIndex(today) - i)
    ensures today.day <= LengthOfMonth(MonthIndex(today) - i) + 3
  {
    hide MakeDay, DateOfDay, LengthOfMonth;
    var t := MonthIndex(today) - i;
    if today.day <= LengthOfMonth(t) {
      InMonth(t, today.day);
      ShortestMonth(t);
    } else {
      Overflow(t, today.day);
    }
  }

  lemma ShortestMonth(monthIndex: int)
    ensures 28 <= LengthOfMonth(monthIndex) <= 31
  {
  }

  /** The month number found against the one expected, which adds 12 once only. */
  lemma ExpectedMonth(today: Date, i: int, k: int)
    requires 1 <= today.month <= 12 && 0 <= i && 0 <= k <= 1
    ensures var expm := today.month - 1 - i;
            var actm := (MonthIndex(today) - i + k) % 12;
            (if expm < 0 then 12 + expm else expm) == actm <==> k == 0 && i <= today.month - 1 + 12
  {
    var e := today.month - 1 - i;
    assert (12 * today.year + e + k) % 12 == (e + k) % 12;
  }

  lemma MonthIndexOf(monthIndex: int, day: int)
    ensures MonthIndex(DateInMonth(monthIndex, day)) == monthIndex
  {
  }

  function ExpectedMonthOf(today: Date, i: int): int {
    var expm := today.month - 1 - i;
    if expm < 0 then 12 + expm else expm
  }

  function Found(today: Date, i: int): Date {
    DateOfDay(MakeDay(MonthIndex(today) - i, today.day))
  }

  /** What the comparison of the month found with the one expected is for: an entry that needs no correction is
    the one wanted, any other is on the last day of the month before it. */
  lemma Correction(today: Date, i: int)
    requires ValidGregorian(today) && 0 <= i
    ensures MonthEntry(today, i) == if Found(today, i).month - 1 == ExpectedMonthOf(today, i)
                                    then Found(today, i) else LastOf(MonthIndex(Found(today, i)) - 1)
    ensures MonthModeRight(today, i) && Found(today, i).month - 1 != ExpectedMonthOf(today, i)
            ==> Found(today, i).day <= 3
  {
    hide LengthOfMonth, Found, MonthIndex, DateInMonth, LastOf;
    var t := MonthIndex(today) - i;
    var k := if today.day <= LengthOfMonth(t) then 0 else 1;
    FoundIn(today, i, k);
    ExpectedMonth(today, i, k);
  }

  /** The date found is in the month wanted, or overflows into the one after. */
  lemma FoundIn(today: Date, i: int, k: int)
    requires ValidGregorian(today) && 0 <= i
    requires k == if today.day <= LengthOfMonth(MonthIndex(today) - i) then 0 else 1
    ensures var t, found := MonthIndex(today) - i, Found(today, i);
            && MonthIndex(found) == t + k && found.month - 1 == (t + k) % 12
            && (if k == 0 then found == DateInMonth(t, today.day) else found.day <= 3)
  {
    hide MakeDay, DateOfDay, LengthOfMonth, MonthIndex;
    var t := MonthIndex(today) - i;
    SteppedBack(today, i);
    MonthIndexOf(t, today.day);
    MonthIndexOf(t + 1, today.day - LengthOfMonth(t));
  }

  /** One round of month mode. The correction takes at most three steps where the month comes out right. */
  method StepBackMonths(dtObj: JsDate, i: int) returns (ghost steps: nat)
    requires 0 <= i
    modifies dtObj
    ensures DateOfDay(dtObj.day) == MonthEntry(DateOfDay(old(dtObj.day)), i)
    ensures dtObj.ms == old(dtObj.ms)
    ensures MonthIndex(DateOfDay(dtObj.day)) == MonthIndex(DateOfDay(old(dtObj.day))) - i <==>
            MonthModeRight(DateOfDay(old(dtObj.day)), i)
    ensures MonthModeRight(DateOfDay(old(dtObj.day)), i) ==> steps <= 3
  {
    hide MakeDay, DateOfDay, MonthEntry, MonthModeRight, LastOf;
    ghost var today := DateOfDay(dtObj.day);
    DateRoundTrips(dtObj.day);
    MonthModeExactly(today, i);
    Correction(today, i);

    var expm := dtObj.GetMonth() - i;
    expm := if expm < 0 then 12 + expm else expm;
    dtObj.SetMonth(dtObj.GetMonth() - i);
    var actm := dtObj.GetMonth();
    assert DateOfDay(dtObj.day) == Found(today, i);
    steps := 0;
    if expm != actm {
      steps := BackToMonthBefore(dtObj, actm);
    }
  }

  // ---------- The whole list ----------

  function Reversed<T>(s: seq<T>): (r: seq<T>)
    ensures |r| == |s|
    ensures forall k :: 0 <= k < |s| ==> r[k] == s[|s| - 1 - k]
  {
    seq(|s|, k requires 0 <= k < |s| => s[|s| - 1 - k])
  }

  /** Oldest first, one midnight for each of the last `count` days, weeks, months or years, this one included.
    `today` and `now` are the clock, read as the day it shows and the time within that day. */
  method GetDateRange(kind: string, count: int, today: int, now: int) returns (list: seq<JsDate>)
    ensures |list| == if count < 0 then 0 else count
    ensures forall k :: 0 <= k < |list| ==>
      && fresh(list[k]) && list[k].ms == 0
      && list[k].day == RangeEntry(kind, today, |list| - 1 - k)
    ensures kind == "month" ==> forall k :: 0 <= k < |list| ==>
      (MonthIndex(DateOfDay(list[k].day)) == MonthIndex(DateOfDay(today)) - (|list| - 1 - k) <==>
       MonthModeRight(DateOfDay(today), |list| - 1 - k))
    ensures kind == "day" ==> forall k :: 0 <= k < |list| ==> list[k].day == today - (|list| - 1 - k)
  {
    hide MakeDay, DateOfDay, LengthOfMonth, DayOf, MonthEntry, MonthIndex, MonthModeRight, FromIsoText;
    var result: seq<JsDate> := [];
    var recentObj: JsDate? := null;
    var i := 0;
    while i < count
      invariant 0 <= i && (i <= count || i == 0) && |result| == i
      invariant forall k :: 0 <= k < i ==>
        && fresh(result[k]) && result[k].ms == 0
        && result[k].day == RangeEntry(kind, today, k)
      invariant recentObj != null ==> fresh(recentObj) && recentObj !in result
      invariant kind !in {"month", "year", "day"} ==>
        (recentObj != null <==> i > 0) && (i > 0 ==> recentObj.day == WeekEntry(today, i - 1))
    {
      var dtObj := new JsDate(today, now);
      dtObj.SetTime(0);
      if kind == "month" {
        ghost var steps := StepBackMonths(dtObj, i);
        DateRoundTrips(dtObj.day);
      } else if kind == "year" {
        YearsBack(dtObj.day, i);
        dtObj.SetFullYear(dtObj.GetFullYear() - i);
      } else if kind == "day" {
        dtObj.SetDate(dtObj.GetDate() - i);
      } else {
        var weekEnd;
        if recentObj != null {
          recentObj.SetDate(recentObj.GetDate() - 1);
          recentObj, weekEnd := GetWeekBounds(recentObj);
        } else {
          recentObj, weekEnd := GetWeekBounds(dtObj);
        }
        dtObj := recentObj;
      }
      var copy := new JsDate(dtObj.day, dtObj.ms);
      result := result + [copy];
      i := i + 1;
    }
    list := Reversed(result);
    forall k | 0 <= k < count && kind == "month"
      ensures MonthIndex(DateOfDay(RangeEntry(kind, today, k))) == MonthIndex(DateOfDay(today)) - k <==>
              MonthModeRight(DateOfDay(today), k)
    {
      MonthRangeEntry(today, k);
    }
  }

  lemma MonthRangeEntry(today: int, i: nat)
    ensures MonthIndex(DateOfDay(RangeEntry("month", today, i))) == MonthIndex(DateOfDay(today)) - i <==>
            MonthModeRight(DateOfDay(today), i)
  {
    hide DateOfDay, DayOf, MonthModeRight;
    DateRoundTrips(today);
    MonthModeExactly(DateOfDay(today), i);
    DayRoundTrips(MonthEntry(DateOfDay(today), i));
  }

  lemma YearsBack(day: int, i: int)
    ensures var date := DateOfDay(day);
            12 * (date.year - i) + (date.month - 1) == MonthIndex(date) - 12 * i
  {
  }

  // ---------- What the lists mean ----------

  /** Month mode lists one date in each of the months before exactly as far back as its month arithmetic
    goes right, in particular for every list of up to thirteen months; beyond that it lands a month early. */
  lemma MonthModeExactly(today: Date, i: int)
    requires ValidGregorian(today) && 0 <= i
    ensures MonthIndex(MonthEntry(today, i)) == MonthIndex(today) - i <==> MonthModeRight(today, i)
    ensures !MonthModeRight(today, i) ==> MonthIndex(MonthEntry(today, i)) == MonthIndex(today) - i - 1
    ensures i <= 12 ==> MonthModeRight(today, i)
    ensures ValidGregorian(MonthEntry(today, i))
    ensures MonthEntry(today, 0) == today
  {
    var t := MonthIndex(today) - i;
    MonthIndexInverts(today);
    MonthIndexOf(t, MonthEntry(today, i).day);
    MonthIndexOf(t - 1, MonthEntry(today, i).day);
  }

  /** The first wrong entry: in mid January, thirteen months back is given as the end of November. */
  lemma MonthModeGoesWrong()
    ensures MonthEntry(Date(2024, 1, 15), 13) == Date(2022, 11, 30)
    ensures MonthsBefore(Date(2024, 1, 15), 13) == Date(2022, 12, 15)
  {
  }

  /** Day mode lists the consecutive dates of the calendar that end today. */
  lemma DayModeEntries(today: int, i: nat)
    ensures RangeEntry("day", today, 0) == today
    ensures DateOfDay(RangeEntry("day", today, i)) == NextGregorian(DateOfDay(RangeEntry("day", today, i + 1)))
  {
    hide DateOfDay, DayOf, NextGregorian;
    NextDate(today - i - 1);
  }

  lemma NextDate(day: int)
    ensures DateOfDay(day + 1) == NextGregorian(DateOfDay(day))
  {
    hide DateOfDay, GregorianToJd;
    var date := DateOfDay(day);
    DateRoundTrips(day);
    GregorianSuccessor(date);
    DayRoundTrips(NextGregorian(date));
  }

  /** Year mode keeps month and day, except that 29 February becomes 1 March where there is none. */
  lemma YearModeEntry(today: int, i: nat)
    ensures var date := DateOfDay(today);
            var entry := DateOfDay(RangeEntry("year", today, i));
            entry == if GregorianLeap(date.year - i) || date.month != 2 || date.day != 29
                     then Date(date.year - i, date.month, date.day)
                     else Date(date.year - i, 3, 1)
  {
    hide MakeDay, DateOfDay;
    var date := DateOfDay(today);
    var t := MonthIndex(date) - 12 * i;
    DateRoundTrips(today);
    assert t == MonthIndex(Date(date.year - i, date.month, date.day));
    MonthIndexInverts(Date(date.year - i, date.month, date.day));
    if date.day <= LengthOfMonth(t) {
      InMonth(t, date.day);
    } else {
      Overflow(t, date.day);
      assert t + 1 == MonthIndex(Date(date.year - i, 3, 1));
      MonthIndexInverts(Date(date.year - i, 3, 1));
    }
  }

  /** The days week mode takes the weeks of: today, and the Saturday before each Sunday listed. */
  function WeekLookedAt(today: int, i: nat): int {
    if i == 0 then today else WeekStart(today) - 7 * (i - 1) - 1
  }

  lemma WeekTextRightExactly(day: int)
    ensures WeekStart(FromIsoText(day)) == WeekStart(day) <==> WeekTextRight(day)
  {
    hide DateOfDay, DayOf;
    DateRoundTrips(day);
    SameWeek(day, DateOfDay(day).day - 1);
  }

  lemma SameWeek(day: int, k: int)
    requires 0 <= k
    ensures WeekStart(day - k) == WeekStart(day) <==> k <= Weekday(day)
  {
  }

  /** Week mode lists Sundays. They are this week's and those before, seven days apart, exactly as long as the
    text of each day looked at tells its week. */
  lemma WeekModeEntries(today: int, count: nat)
    ensures (forall i: nat :: i < count ==> RangeEntry("week", today, i) == WeekStart(today) - 7 * i) <==>
            (forall i: nat :: i < count ==> WeekTextRight(WeekLookedAt(today, i)))
    ensures forall i: nat :: Weekday(RangeEntry("week", today, i)) == 0
    ensures 0 <= today - WeekStart(today) < 7
  {
    hide DateOfDay, FromIsoText, WeekTextRight, FourDigitYear, WeekEntry;
    forall i: nat ensures Weekday(RangeEntry("week", today, i)) == 0 {
      WeekEntryStep(today, i);
    }
    if forall i: nat :: i < count ==> WeekTextRight(WeekLookedAt(today, i)) {
      forall i: nat | i < count ensures RangeEntry("week", today, i) == WeekStart(today) - 7 * i {
        WeeksBack(today, i);
      }
    } else {
      var i: nat :| i < count && !WeekTextRight(WeekLookedAt(today, i));
      WeekEntryStep(today, i);
      WeekTextRightExactly(WeekLookedAt(today, i));
      var before: nat := if i == 0 then 0 else i - 1;
      assert RangeEntry("week", today, before) != WeekStart(today) - 7 * before
             || RangeEntry("week", today, i) != WeekStart(today) - 7 * i;
    }
  }

  /** The failing input: on 31 January 10000 week mode starts with a Sunday five weeks back. */
  lemma WeekModeGoesWrong()
    ensures var today := DayOf(Date(10000, 1, 31));
            !WeekTextRight(today) && RangeEntry("week", today, 0) == WeekStart(today) - 35
  {
    hide DateOfDay, DayOf, WeekEntry;
    DayRoundTrips(Date(10000, 1, 31));
    LastOfJanuary10000();
    WeekEntryStep(DayOf(Date(10000, 1, 31)), 0);
  }

  lemma LastOfJanuary10000()
    ensures DayOf(Date(10000, 1, 31)) == 2932927
  {
  }

  lemma WeekEntryStep(today: int, i: nat)
    ensures Weekday(WeekEntry(today, i)) == 0
    ensures WeekEntry(today, i) == WeekStart(FromIsoText(if i == 0 then today else WeekEntry(today, i - 1) - 1))
    ensures WeekStart(WeekLookedAt(today, i)) == WeekStart(today) - 7 * i
  {
    hide FromIsoText;
  }

  lemma {:induction false} WeeksBack(today: int, i: nat)
    requires forall k: nat :: k <= i ==> WeekTextRight(WeekLookedAt(today, k))
    ensures WeekEntry(today, i) == WeekStart(today) - 7 * i
  {
    hide DateOfDay, FromIsoText, WeekTextRight, FourDigitYear, WeekEntry, WeekStart;
    WeekEntryStep(today, i);
    WeekTextRightExactly(WeekLookedAt(today, i));
    if i > 0 {
      WeeksBack(today, i - 1);
    }
  }
}
