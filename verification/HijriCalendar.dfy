/** The tabular Hijri calendar of `basecal`: 30-year cycles of 10631 days, read off a day number.

  The real constants of the source become exact integer quotients: the mean year is 10631/30 and the
  shift is 801/6000, so (z - shift) / year is (6000 * z - 801) / 2126200, and so on.
 */
module HijriCalendar {

  datatype HijriDate = HijriDate(year: int, month: int, day: int)

  // ---------- The calendar itself ----------

  /** The eleven long years of a cycle: 2, 5, 7, 10, 13, 15, 18, 21, 24, 26 and 29. */
  const LONG_YEARS: set<int> := {2, 5, 7, 10, 13, 15, 18, 21, 24, 26, 29}

  predicate LongYear(year: int) {
    year % 30 in LONG_YEARS
  }

  function YearLength(year: int): int {
    if LongYear(year) then 355 else 354
  }

  /** Odd months have 30 days and even months 29, except that month 12 has 30 in a long year. */
  function MonthLength(year: int, month: int): int {
    if month % 2 == 1 || (month == 12 && LongYear(year)) then 30 else 29
  }

  predicate Valid(date: HijriDate) {
    1 <= date.month <= 12 && 1 <= date.day <= MonthLength(date.year, date.month)
  }

  function Next(date: HijriDate): HijriDate {
    if date.day < MonthLength(date.year, date.month) then date.(day := date.day + 1)
    else if date.month < 12 then HijriDate(date.year, date.month + 1, 1)
    else HijriDate(date.year + 1, 1, 1)
  }

  // ---------- The arithmetic of the source ----------

  const EPOCH := 1948084

  /** Days before year `j` of a cycle. */
  function YearOffset(j: int): int {
    (2126200 * j + 801) / 6000
  }

  /** Days before month `im` of a year. */
  function MonthOffset(im: int): int {
    (295001 * im - 290000) / 10000
  }

  /** The decoding of `basecal`, its cycle, year and month steps in order. */
  function FromJd(jd: int): HijriDate {
    var cyc := (jd - EPOCH) / 10631;
    var z := jd - EPOCH - 10631 * cyc;
    var j := (6000 * z - 801) / 2126200;
    var d := z - YearOffset(j);
    var m := (10000 * d + 285001) / 295000;
    var im := if m == 13 then 12 else m;
    HijriDate(30 * cyc + j, im, d - MonthOffset(im))
  }

  /** The inverse: epoch plus cycle, year and month offsets plus day. */
  function ToJd(date: HijriDate): int {
    EPOCH + 10631 * (date.year / 30) + YearOffset(date.year % 30) + MonthOffset(date.month) + date.day
  }

  // ---------- Year and month tables ----------

  /** The offsets repeat every cycle, so one formula serves all years, -1 and 30 included. */
  lemma YearOffsetPeriodic(year: int)
    ensures 10631 * (year / 30) + YearOffset(year % 30) == YearOffset(year)
  {
    assert year == 30 * (year / 30) + year % 30;
  }

  /** A year is 355 days long exactly when it is one of the eleven long years. */
  lemma YearStep(year: int)
    ensures YearOffset(year + 1) - YearOffset(year) == YearLength(year)
  {
    YearOffsetPeriodic(year);
    YearOffsetPeriodic(year + 1);
    var j := year % 30;
    assert (year + 1) % 30 == if j == 29 then 0 else j + 1;
    YearStepInCycle(j);
  }

  lemma YearStepInCycle(j: int)
    requires 0 <= j < 30
    ensures YearOffset(j + 1) - YearOffset(j) == if j in LONG_YEARS then 355 else 354
  {
    var n := 2126200 * j + 801;
    assert YearOffset(j) == 354 * j + (2200 * j + 801) / 6000;
    assert YearOffset(j + 1) == 354 * j + 354 + (2200 * j + 3001) / 6000;
    LongYearCarries(j);
  }

  /** The long years are those in which the odd fractions of a day add up to a whole one. */
  lemma LongYearCarries(j: int)
    requires 0 <= j < 30
    ensures (2200 * j + 3001) / 6000 - (2200 * j + 801) / 6000 == if j in LONG_YEARS then 1 else 0
  {
    var k := (2200 * j + 801) / 6000;
    assert 0 <= k <= 10;
    assert 6000 * k <= 2200 * j + 801 < 6000 * k + 6000;
    assert j in LONG_YEARS <==> 6000 * k + 6000 <= 2200 * j + 3001;
  }

  lemma MonthOffsetTable(im: int)
    requires 1 <= im <= 13
    ensures MonthOffset(im) == [0, 30, 59, 89, 118, 148, 177, 207, 236, 266, 295, 325, 354][im - 1]
  {
  }

  /** Month offsets are running totals of the month lengths, and the twelve months fill the year. */
  lemma MonthsFillTheYear(year: int, im: int)
    requires 1 <= im <= 12
    ensures im < 12 ==> MonthOffset(im + 1) - MonthOffset(im) == MonthLength(year, im)
    ensures MonthOffset(1) == 0
    ensures MonthOffset(12) + MonthLength(year, 12) == YearLength(year)
  {
    MonthOffsetTable(im);
    MonthOffsetTable(im + 1);
    MonthOffsetTable(1);
    MonthOffsetTable(12);
  }

  /** The month search inverts the month table; the 355th day, which reaches month 13, is moved back. */
  lemma MonthSearch(d: int)
    requires 1 <= d <= 355
    ensures var m := (10000 * d + 285001) / 295000;
            var im := if m == 13 then 12 else m;
            && 1 <= im <= 12
            && MonthOffset(im) < d
            && d <= if im == 12 then 355 else MonthOffset(im + 1)
  {
    var m := (10000 * d + 285001) / 295000;
    assert 1 <= m <= 13;
    MonthOffsetTable(m);
    if m < 13 {
      MonthOffsetTable(m + 1);
    }
  }

  // ---------- Bijection ----------

  lemma OffsetBelow(j: int, z: int)
    requires 2126200 * j + 801 < 6000 * z
    ensures YearOffset(j) < z
  {
  }

  lemma OffsetAtLeast(j: int, z: int)
    requires 2126200 * j + 801 >= 6000 * z
    ensures YearOffset(j) >= z
  {
  }

  /** The year found is the one whose days contain `z`, for every `z`: `z = 0` falls in year -1. */
  lemma YearSearch(z: int)
    ensures var j := (6000 * z - 801) / 2126200;
            YearOffset(j) < z <= YearOffset(j + 1)
  {
    var j := (6000 * z - 801) / 2126200;
    assert 2126200 * j <= 6000 * z - 801 < 2126200 * (j + 1);
    assert 2 * (1063100 * j + 400) + 1 != 2 * (3000 * z);
    OffsetBelow(j, z);
    OffsetAtLeast(j + 1, z);
  }

  lemma YearSearchUnique(z: int, j: int)
    requires YearOffset(j) < z <= YearOffset(j + 1)
    ensures (6000 * z - 801) / 2126200 == j
  {
    YearSearch(z);
    var k := (6000 * z - 801) / 2126200;
    if k < j {
      YearOffsetMonotone(k + 1, j);
    } else if k > j {
      YearOffsetMonotone(j + 1, k);
    }
  }

  lemma YearOffsetMonotone(j: int, k: int)
    requires j <= k
    ensures YearOffset(j) <= YearOffset(k)
  {
  }

  /** Decoding without the cycle step: the 30-year cycle is a convenience, not a rule. */
  lemma FromJdYear(jd: int)
    ensures var z := jd - EPOCH;
            var date := FromJd(jd);
            && YearOffset(date.year) < z <= YearOffset(date.year + 1)
            && 1 <= date.month <= 12
            && MonthOffset(date.month) < z - YearOffset(date.year)
            && z - YearOffset(date.year) <= (if date.month == 12 then 355 else MonthOffset(date.month + 1))
            && date.day == z - YearOffset(date.year) - MonthOffset(date.month)
  {
    hide YearOffset, MonthOffset;
    var cyc := (jd - EPOCH) / 10631;
    var z := jd - EPOCH - 10631 * cyc;
    var j := (6000 * z - 801) / 2126200;
    YearSearch(z);
    assert -1 <= j <= 29;
    ShiftByCycles(j, cyc);
    ShiftByCycles(j + 1, cyc);
    YearStep(j);
    MonthSearch(z - YearOffset(j));
  }

  lemma ShiftByCycles(j: int, cyc: int)
    ensures YearOffset(30 * cyc + j) == 10631 * cyc + YearOffset(j)
  {
    assert 2126200 * (30 * cyc + j) + 801 == 6000 * (10631 * cyc) + (2126200 * j + 801);
  }

  /** Every day number decodes to a valid Hijri date that encodes back to it. */
  lemma JdRoundTrip(jd: int)
    ensures Valid(FromJd(jd))
    ensures ToJd(FromJd(jd)) == jd
  {
    hide FromJd, YearOffset, MonthOffset;
    var date := FromJd(jd);
    FromJdYear(jd);
    YearStep(date.year);
    YearOffsetPeriodic(date.year);
    MonthOffsetTable(date.month);
    MonthOffsetTable(date.month + 1);
  }

  /** Encoding a valid Hijri date, of any year, and decoding it gives the date back. */
  lemma DateRoundTrip(date: HijriDate)
    requires Valid(date)
    ensures FromJd(ToJd(date)) == date
  {
    hide FromJd, YearOffset, MonthOffset;
    var jd := ToJd(date);
    var got := FromJd(jd);
    FromJdYear(jd);
    YearOffsetPeriodic(date.year);
    YearStep(date.year);
    MonthOffsetTable(date.month);
    MonthOffsetTable(date.month + 1);
    var z := jd - EPOCH;
    SameYear(z, date.year, got.year);
    SameMonth(z - YearOffset(date.year), date.month, got.month);
  }

  lemma SameYear(z: int, j: int, k: int)
    requires YearOffset(j) < z <= YearOffset(j + 1) && YearOffset(k) < z <= YearOffset(k + 1)
    ensures j == k
  {
    YearSearchUnique(z, j);
    YearSearchUnique(z, k);
  }

  lemma SameMonth(d: int, m: int, n: int)
    requires 1 <= m <= 12 && 1 <= n <= 12
    requires MonthOffset(m) < d <= if m == 12 then 355 else MonthOffset(m + 1)
    requires MonthOffset(n) < d <= if n == 12 then 355 else MonthOffset(n + 1)
    ensures m == n
  {
    MonthOffsetTable(m);
    MonthOffsetTable(n);
    MonthOffsetTable(m + 1);
    MonthOffsetTable(n + 1);
  }

  /** Decoding inverts encoding on the valid dates and on no others. */
  lemma DateRoundTripExactly(date: HijriDate)
    ensures FromJd(ToJd(date)) == date <==> Valid(date)
  {
    if Valid(date) {
      DateRoundTrip(date);
    }
    JdRoundTrip(ToJd(date));
  }

  /** The next day number decodes to the next Hijri date. */
  lemma Successor(jd: int)
    ensures FromJd(jd + 1) == Next(FromJd(jd))
  {
    hide *;
    var date := FromJd(jd);
    JdRoundTrip(jd);
    NextToJd(date);
    DateRoundTrip(Next(date));
  }

  lemma NextToJd(date: HijriDate)
    requires Valid(date)
    ensures Valid(Next(date)) && ToJd(Next(date)) == ToJd(date) + 1
  {
    hide YearOffset, MonthOffset;
    YearOffsetPeriodic(date.year);
    YearOffsetPeriodic(date.year + 1);
    YearStep(date.year);
    MonthOffsetTable(date.month);
    MonthOffsetTable(date.month + 1);
    MonthOffsetTable(1);
  }

  // ---------- Cycles ----------

  function SumOfYearLengths(from: int, n: nat): int
    decreases n
  {
    if n == 0 then 0 else YearLength(from) + SumOfYearLengths(from + 1, n - 1)
  }

  /** The year offset is the running total of the year lengths. */
  lemma {:induction false} OffsetIsSum(from: int, n: nat)
    ensures YearOffset(from + n) - YearOffset(from) == SumOfYearLengths(from, n)
    decreases n
  {
    if n > 0 {
      YearStep(from);
      OffsetIsSum(from + 1, n - 1);
    }
  }

  function LongYearsIn(from: int, n: nat): nat
    decreases n
  {
    if n == 0 then 0 else (if LongYear(from) then 1 else 0) + LongYearsIn(from + 1, n - 1)
  }

  lemma {:induction false} LongYearsGiveTheExcess(from: int, n: nat)
    ensures SumOfYearLengths(from, n) == 354 * n + LongYearsIn(from, n)
    decreases n
  {
    if n > 0 {
      LongYearsGiveTheExcess(from + 1, n - 1);
    }
  }

  /** Any 30 years in a row are 10631 days, eleven of them long. */
  lemma ElevenLongYears(from: int)
    ensures SumOfYearLengths(from, 30) == 10631
    ensures LongYearsIn(from, 30) == 11
  {
    OffsetIsSum(from, 30);
    LongYearsGiveTheExcess(from, 30);
    ShiftByCycles(from, 1);
  }
}
