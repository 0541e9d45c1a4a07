/** `basecal` and `hijriDateConverter`: from the fields of a `Date` object to the Hijri calendar. */
module HijriDateConverter {
  import opened CivilCalendar
  import Hijri = HijriCalendar

  /** What the getters of the source's `Date` argument return; months count from 0, Sunday is 0. */
  datatype DateFields = DateFields(year: int, month: int, day: int, weekday: int)

  function CivilDate(date: DateFields): Date {
    Date(date.year, date.month + 1, date.day)
  }

  /** The Hijri date of a civil date. */
  function Convert(date: Date): Hijri.HijriDate {
    Hijri.FromJd(CivilToJd(date))
  }

  /** The civil date of a Hijri date. */
  function ConvertBack(date: Hijri.HijriDate): Date {
    CivilFromJd(Hijri.ToJd(date))
  }

  /** Conversion and its inverse are inverse bijections between the valid dates of the two calendars. */
  lemma ConversionIsABijection(civil: Date, hijri: Hijri.HijriDate)
    ensures Hijri.Valid(Convert(civil))
    ensures ConvertBack(Convert(civil)) == civil <==> ValidCivil(civil)
    ensures ValidCivil(ConvertBack(hijri))
    ensures Convert(ConvertBack(hijri)) == hijri <==> Hijri.Valid(hijri)
  {
    Hijri.JdRoundTrip(CivilToJd(civil));
    CivilRoundTripExactly(civil);
    JdRoundTrip(Hijri.ToJd(hijri));
    Hijri.DateRoundTripExactly(hijri);
  }

  /** The day after a civil date converts to the day after its Hijri date. */
  lemma ConversionCommutesWithNextDay(civil: Date)
    requires ValidCivil(civil)
    ensures Convert(NextCivil(civil)) == Hijri.Next(Convert(civil))
  {
    var jd := CivilToJd(civil);
    assert CivilToJd(NextCivil(civil)) == jd + 1 by {
      CivilSuccessor(civil);
    }
    Hijri.Successor(jd);
  }

  /** A civil date and a date a `Date` object can hold get the same Hijri date exactly when they are equal
    or the second is a dropped day and the first lies ten days before it. */
  lemma ConversionCollidesExactly(d1: Date, d2: Date)
    requires ValidCivil(d1) && ValidGregorian(d2)
    ensures Convert(d1) == Convert(d2) <==> d1 == d2 || (Dropped(d2) && d1 == TenDaysBefore(d2))
  {
    Hijri.JdRoundTrip(CivilToJd(d1));
    Hijri.JdRoundTrip(CivilToJd(d2));
    assert Convert(d1) == Convert(d2) <==> CivilToJd(d1) == CivilToJd(d2);
    SharedDayNumber(d1, d2);
  }

  /** First passage of `basecal`: the fields of the argument to a day number. */
  method EncodeCivil(date: DateFields) returns (jd: int)
    ensures jd == CivilToJd(CivilDate(date))
  {
    var m, y := date.month + 1, date.year;
    if m < 3 {
      y := y - 1;
      m := m + 12;
    }
    var a := y / 100;
    var b := 2 - a + a / 4;
    if y < 1583 {
      b := 0;
    }
    if y == 1582 {
      if m > 10 {
        b := -10;
      }
      if m == 10 {
        b := 0;
        if date.day > 4 {
          b := -10;
        }
      }
    }
    jd := 1461 * (y + 4716) / 4 + 306001 * (m + 1) / 10000 + date.day + b - 1524;
  }

  /** Second passage: a day number to a civil day, month and year. */
  method DecodeCivil(jd: int) returns (day: int, month: int, year: int)
    ensures Date(year, month, day) == CivilFromJd(jd)
  {
    hide CivilFromJd;
    var b := 0;
    if jd > 2299160 {
      var a := (4 * jd - 7468865) / 146097;
      b := 1 + a - a / 4;
    }
    ReadAsDayCount(jd, b);
    var bb := jd + b + 1524;
    var cc := (20 * bb - 2442) / 7305;
    var dd := 1461 * cc / 4;
    var ee := 10000 * (bb - dd) / 306001;
    day := bb - dd - 306001 * ee / 10000;
    month := ee - 1;
    if ee > 13 {
      cc := cc + 1;
      month := ee - 13;
    }
    year := cc - 4716;
    assert Date(year, month, day) == FromDayCount(bb);
  }

  lemma ReadAsDayCount(jd: int, b: int)
    requires b == if jd > 2299160 then 1 + CenturyIndex(jd) - CenturyIndex(jd) / 4 else 0
    ensures CivilFromJd(jd) == FromDayCount(jd + b + 1524)
  {
    hide FromDayCount, CenturyIndex;
  }

  /** Third passage: a day number to a Hijri day, month and year. */
  method DecodeHijri(jd: int) returns (id: int, im: int, iy: int)
    ensures Hijri.HijriDate(iy, im, id) == Hijri.FromJd(jd)
  {
    var epochastro := 1948084;
    var z := jd - epochastro;
    var cyc := z / 10631;
    z := z - 10631 * cyc;
    var j := (6000 * z - 801) / 2126200;
    iy := 30 * cyc + j;
    z := z - (2126200 * j + 801) / 6000;
    im := (10000 * z + 285001) / 295000;
    if im == 13 {
      im := 12;
    }
    id := z - (295001 * im - 290000) / 10000;
  }

  /** On a valid civil date the first three cells give that date back, and the last three always hold
    the valid Hijri date whose day number is the date's own. */
  method BaseCal(date: DateFields) returns (myRes: array<int>)
    ensures fresh(myRes) && myRes.Length == 8
    ensures Date(myRes[2], myRes[1] + 1, myRes[0]) == CivilDate(date) <==> ValidCivil(CivilDate(date))
    ensures myRes[3] == CivilToJd(CivilDate(date)) - 1
    ensures myRes[4] == date.weekday
    ensures Hijri.Valid(Hijri.HijriDate(myRes[7], myRes[6] + 1, myRes[5]))
    ensures Hijri.ToJd(Hijri.HijriDate(myRes[7], myRes[6] + 1, myRes[5])) == CivilToJd(CivilDate(date))
    ensures Hijri.HijriDate(myRes[7], myRes[6] + 1, myRes[5]) == Convert(CivilDate(date))
  {
    hide CivilToJd, CivilFromJd, Hijri.FromJd, Hijri.ToJd;
    var wd := date.weekday + 1;
    var jd := EncodeCivil(date);
    var day, month, year := DecodeCivil(jd);
    var id, im, iy := DecodeHijri(jd);
    CivilRoundTripExactly(CivilDate(date));
    Hijri.JdRoundTrip(jd);

    myRes := new int[] [day, month - 1, year, jd - 1, wd - 1, id, im - 1, iy];
  }

  /** The exported object; the two name fields hold the positions looked up in the name tables. */
  datatype IslamicDate = IslamicDate(
    weekdayName: int, dayOfWeek: int, date: int, month: int, monthName: int, year: int)

  /** Both name lookups stay inside their tables of 7 and 12 names. The exported year and month are those of
    the Hijri date; the exported day is one less, so it is the day before's, and 0 on the first of a month. */
  method Export(date: DateFields) returns (islamic: IslamicDate)
    requires 0 <= date.weekday < 7
    ensures 0 <= islamic.weekdayName < 7 && 0 <= islamic.monthName < 12
    ensures islamic.dayOfWeek == date.weekday + 1 && islamic.weekdayName == date.weekday
    ensures islamic.monthName == islamic.month - 1
    ensures Hijri.HijriDate(islamic.year, islamic.month, islamic.date + 1) == Convert(CivilDate(date))
    ensures 0 <= islamic.date <= 29
  {
    var iDate := BaseCal(date);
    Hijri.JdRoundTrip(CivilToJd(CivilDate(date)));
    islamic := IslamicDate(iDate[4], iDate[4] + 1, iDate[5] - 1, iDate[6] + 1, iDate[6], iDate[7]);
  }

  function Exported(date: Date): Hijri.HijriDate {
    var hijri := Convert(date);
    hijri.(day := hijri.day - 1)
  }

  /** The exported triple of one date is the Hijri date of another exactly when the second has the day number
    before and the first is not on the first day of a Hijri month. */
  lemma ExportedIs(date: Date, before: Date)
    ensures Exported(date) == Convert(before) <==>
            CivilToJd(date) == CivilToJd(before) + 1 && Convert(date).day != 1
    ensures !Hijri.Valid(Exported(date)) <==> Convert(date).day == 1
  {
    hide CivilToJd, Hijri.FromJd;
    var jd := CivilToJd(date);
    Hijri.JdRoundTrip(jd);
    Hijri.JdRoundTrip(jd - 1);
    Hijri.JdRoundTrip(CivilToJd(before));
    Hijri.Successor(jd - 1);
  }

  /** The export of the next day of a `Date` object names the day before, except where the calendars part and on
    the first day of a Hijri month. */
  lemma ExportedIsTheDayBefore(date: Date)
    requires ValidGregorian(date)
    ensures Exported(NextGregorian(date)) == Convert(date) <==>
            !Skips(date) && Convert(NextGregorian(date)).day != 1
    ensures !Hijri.Valid(Exported(NextGregorian(date))) <==> Convert(NextGregorian(date)).day == 1
  {
    hide *;
    NextGregorianExactly(date);
    ExportedIs(NextGregorian(date), date);
  }

  /** In the switched calendar, Julian leap days included, only the first of a month is an exception. */
  lemma ExportedIsTheCivilDayBefore(date: Date)
    requires ValidCivil(date)
    ensures Exported(NextCivil(date)) == Convert(date) <==> Convert(NextCivil(date)).day != 1
    ensures Hijri.Valid(Exported(NextCivil(date))) <==> Convert(NextCivil(date)).day != 1
  {
    hide *;
    CivilSuccessor(date);
    ExportedIs(NextCivil(date), date);
  }

  /** For a `Date` object, 5 October 1582 is exported as ten days before the day before it, and 1 March 1400 as
    the day after the day before it. */
  lemma ExportGoesWrong()
    ensures Exported(Date(1582, 10, 5)) == Hijri.HijriDate(990, 9, 7)
    ensures Convert(Date(1582, 10, 4)) == Hijri.HijriDate(990, 9, 17)
    ensures Exported(Date(1400, 3, 1)) == Hijri.HijriDate(802, 7, 4)
    ensures Convert(Date(1400, 2, 28)) == Hijri.HijriDate(802, 7, 3)
  {
    hide Hijri.FromJd, Convert;
    ConvertByJd(Date(1582, 10, 5), Hijri.HijriDate(990, 9, 8));
    ConvertByJd(Date(1582, 10, 4), Hijri.HijriDate(990, 9, 17));
    ConvertByJd(Date(1400, 3, 1), Hijri.HijriDate(802, 7, 5));
    ConvertByJd(Date(1400, 2, 28), Hijri.HijriDate(802, 7, 3));
  }

  /** The dates exported as no date at all are the first days of the Hijri months, one for each month of each
    year. */
  lemma ExportFailsExactly(date: Date)
    requires ValidGregorian(date) || ValidCivil(date)
    ensures !Hijri.Valid(Exported(date)) <==>
            exists year: int, month: int :: 1 <= month <= 12 && date == ConvertBack(Hijri.HijriDate(year, month, 1))
  {
    var hijri := Convert(date);
    LeapRules(date.year);
    if Dropped(date) {
      DroppedInMidMonth(date);
    }
    hide ConvertBack, Convert, Exported;
    ExportedIs(date, date);
    ConversionIsABijection(date, hijri);
    if hijri.day == 1 {
      assert date == ConvertBack(Hijri.HijriDate(hijri.year, hijri.month, 1));
    }
    if year: int, month: int :| 1 <= month <= 12 && date == ConvertBack(Hijri.HijriDate(year, month, 1)) {
      FirstIsValid(year, month);
      ConversionIsABijection(date, Hijri.HijriDate(year, month, 1));
    }
  }

  lemma DroppedInMidMonth(date: Date)
    requires Dropped(date)
    ensures Convert(date) == Hijri.HijriDate(990, 9, date.day + 3)
  {
    hide Hijri.FromJd, Convert;
    ConvertByJd(date, Hijri.HijriDate(990, 9, date.day + 3));
  }

  lemma ConvertByJd(date: Date, hijri: Hijri.HijriDate)
    requires Hijri.Valid(hijri) && Hijri.ToJd(hijri) == CivilToJd(date)
    ensures Convert(date) == hijri
  {
    hide Hijri.FromJd, Hijri.ToJd, CivilToJd;
    Hijri.DateRoundTripExactly(hijri);
  }

  lemma FirstIsValid(year: int, month: int)
    requires 1 <= month <= 12
    ensures Hijri.Valid(Hijri.HijriDate(year, month, 1))
  {
  }
}
