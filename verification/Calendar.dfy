/**
 Calendar dates from modified Julian day numbers: a closed form with nested
 divisions, and the Gregorian calendar day by day.
 */
module Calendar {

  datatype Date = Date(day: int, month: int, year: int)

  const INT_MAX := 0x7FFF_FFFF

  // ---------------------------------------------------------------- the closed form

  function Century(jd: nat): int {
    (4 * jd - 17918) / 146097
  }

  function Temp1(jd: nat): int {
    4 * (jd + ((6 * Century(jd)) / 4 + 1) / 2 - 37)
  }

  function Temp2(jd: nat): int {
    10 * (((Temp1(jd) - 237) % 1461) / 4) + 5
  }

  /** The date of a modified Julian day; no operand is negative, so the divisions are those of the source. */
  function Mjd2Cal(mjd: nat): Date {
    var jd := mjd + 2400001;
    var (temp1, temp2) := (Temp1(jd), Temp2(jd));
    Date((temp2 % 306) / 10 + 1, (temp2 / 306 + 2) % 12 + 1, temp1 / 1461 - 4712)
  }

  // ---------------------------------------------------------------- the calendar

  predicate Leap(year: int) {
    year % 4 == 0 && (year % 100 != 0 || year % 400 == 0)
  }

  function DaysIn(month: int, year: int): int {
    if month == 2 then (if Leap(year) then 29 else 28)
    else if month == 4 || month == 6 || month == 9 || month == 11 then 30
    else 31
  }

  predicate IsDate(d: Date) {
    1 <= d.month <= 12 && 1 <= d.day <= DaysIn(d.month, d.year)
  }

  function NextDay(d: Date): Date {
    if d.day < DaysIn(d.month, d.year) then Date(d.day + 1, d.month, d.year)
    else if d.month < 12 then Date(1, d.month + 1, d.year)
    else Date(1, 1, d.year + 1)
  }

  /** The date n days after d. */
  function Later(d: Date, n: nat): Date {
    if n == 0 then d else NextDay(Later(d, n - 1))
  }

  // ---------------------------------------------------------------- days since the first of March

  /** The month and day of day k of a year that starts in March; year is the one it starts in. */
  function FromMarch(k: nat, year: int): Date {
    Date((10 * k + 5) % 306 / 10 + 1, ((10 * k + 5) / 306 + 2) % 12 + 1, if k >= 306 then year + 1 else year)
  }

  /** The month of day k, counted from March, and the day in it. */
  lemma {:induction false} MarchMonth(k: nat, year: int) returns (m: nat, first: nat)
    requires k <= 365
    ensures m <= 11 && first == MonthStart(m) && first <= k && (m < 11 ==> k < MonthStart(m + 1))
    ensures FromMarch(k, year) == Date(k - first + 1, (m + 2) % 12 + 1, if k >= 306 then year + 1 else year)
  {
    m := (10 * k + 5) / 306;
    first := MonthStart(m);
  }

  /** Days before month m of a year that starts in March. */
  function MonthStart(m: nat): nat {
    (306 * m + 4) / 10
  }

  /** The months of a year that starts in March have the lengths of the calendar. */
  lemma {:induction false} MonthLength(m: nat, year: int)
    requires m <= 10
    ensures MonthStart(m + 1) - MonthStart(m) == DaysIn((m + 2) % 12 + 1, year)
  {
  }

  /** Days of a year that starts in March follow each other up to the last of February. */
  lemma {:induction false} MarchNext(k: nat, year: int)
    requires k <= 364 && (k == 364 ==> Leap(year + 1))
    ensures NextDay(FromMarch(k, year)) == FromMarch(k + 1, year)
  {
    hide Leap, FromMarch;
    var m, first := MarchMonth(k, year);
    var n, next := MarchMonth(k + 1, year);
    if m < 11 {
      MonthLength(m, FromMarch(k, year).year);
    }
  }

  lemma {:induction false} MarchAgain(k: nat, year: int)
    requires k == if Leap(year + 1) then 365 else 364
    ensures NextDay(FromMarch(k, year)) == FromMarch(0, year + 1)
  {
    hide Leap;
  }

  // ---------------------------------------------------------------- centuries

  /** Day k of century q; century q starts on the first of March of year 100q - 4700. */
  function FromCentury(q: nat, k: nat): Date {
    FromMarch((4 * k + 3) % 1461 / 4, 100 * q - 4700 + (4 * k + 3) / 1461)
  }

  /** Days in century q: one more if its last year is a leap year. */
  function CenturyDays(q: nat): nat {
    if q % 4 == 2 then 36525 else 36524
  }

  function CenturyStart(q: nat): int {
    (146097 * q + 17921) / 4
  }

  lemma {:induction false} CenturiesAbut(q: nat)
    ensures CenturyStart(q + 1) == CenturyStart(q) + CenturyDays(q)
  {
    var p, s := q / 4, q % 4;
    assert q == 4 * p + s;
  }

  /** Where the closed form is in its century. */
  lemma {:induction false} InCentury(jd: nat)
    requires 4480 <= jd
    ensures var q := Century(jd);
            0 <= q && 0 <= jd - CenturyStart(q) < CenturyDays(q)
  {
    var q := Century(jd);
    var r := (4 * jd - 17918) % 146097;
    assert 4 * jd - 17918 == 146097 * q + r;
    CenturiesAbut(q);
  }

  lemma {:induction false} CenturyOf(jd: nat, q: nat)
    requires CenturyStart(q) <= jd < CenturyStart(q + 1)
    ensures Century(jd) == q
  {
  }

  /** The shift of the day number in century q. */
  function Shift(q: nat): nat {
    ((6 * q) / 4 + 1) / 2
  }

  /** Four centuries are 146097 days, and shift by three. */
  lemma {:induction false} FourCenturies(p: nat, s: nat)
    requires s < 4
    ensures Shift(4 * p + s) == 3 * p + (if s == 3 then 2 else s)
    ensures CenturyStart(4 * p + s) ==
            146097 * p + (if s == 0 then 4480 else if s == 1 then 41004 else if s == 2 then 77528 else 114053)
  {
  }

  lemma {:induction false} ShiftedStart(q: nat)
    ensures 4 * (CenturyStart(q) + Shift(q) - 37) - 237 == 1461 * (12 + 100 * q) + 3
  {
    var p, s := q / 4, q % 4;
    assert q == 4 * p + s;
    hide CenturyStart, Shift;
    FourCenturies(p, s);
  }

  /** The closed form counts days from the start of the century. */
  lemma {:induction false} ClosedForm(jd: nat)
    requires 4480 <= jd
    ensures 0 <= Century(jd) && 0 <= jd - CenturyStart(Century(jd)) < CenturyDays(Century(jd))
    ensures Temp1(jd) - 237 == 1461 * (12 + 100 * Century(jd)) + 3 + 4 * (jd - CenturyStart(Century(jd)))
  {
    InCentury(jd);
    ShiftedStart(Century(jd));
    hide CenturyStart;
  }

  /** The closed form gives the date of a day in its century. */
  lemma {:induction false} DateInCentury(mjd: nat)
    ensures var jd := mjd + 2400001;
            && 0 <= Century(jd) && 0 <= jd - CenturyStart(Century(jd)) < CenturyDays(Century(jd))
            && Mjd2Cal(mjd) == FromCentury(Century(jd), jd - CenturyStart(Century(jd)))
  {
    var jd := mjd + 2400001;
    ClosedForm(jd);
    var q := Century(jd);
    var k := jd - CenturyStart(q);
    hide Temp1, Century, CenturyStart;
    SplitYears(100 * q + 12, k);
  }

  /** Years of 1461 quarter days. */
  lemma {:induction false} SplitYears(c: nat, k: nat)
    ensures (1461 * c + 3 + 4 * k) % 1461 == (4 * k + 3) % 1461
    ensures (1461 * c + 240 + 4 * k) / 1461 == c + (4 * k + 3) / 1461 + (if (4 * k + 3) % 1461 / 4 >= 306 then 1 else 0)
  {
  }

  /** The year and quarter days of a day of a century, and of the next day. */
  lemma {:induction false} QuarterDays(k: nat) returns (y: nat, r: nat)
    ensures y == (4 * k + 3) / 1461 && r == (4 * k + 3) % 1461 && 4 * k + 3 == 1461 * y + r
    ensures r + 4 < 1461 ==> (4 * (k + 1) + 3) / 1461 == y && (4 * (k + 1) + 3) % 1461 == r + 4
    ensures r + 4 >= 1461 ==> (4 * (k + 1) + 3) / 1461 == y + 1 && (4 * (k + 1) + 3) % 1461 == r + 4 - 1461
    ensures r < 1461 && (r % 4 == 0 <==> y % 4 == 3)
  {
    y, r := (4 * k + 3) / 1461, (4 * k + 3) % 1461;
  }

  /** Year y of century q (counted from March) ends in a leap day. */
  predicate LongYear(q: nat, y: nat) {
    y % 4 == 3 && (y == 99 ==> q % 4 == 2)
  }

  /** Leap years in century q: every fourth, and the last one only in each fourth century. */
  lemma {:induction false} LeapInCentury(q: nat, y: nat)
    requires y <= 99
    ensures Leap(100 * q - 4700 + y + 1) <==> LongYear(q, y)
  {
    var year := 100 * q - 4700 + y + 1;
    assert year == 4 * (25 * q - 1175) + (y + 1);
    if y == 99 {
      assert year == 100 * (q - 46);
    } else {
      assert year == 100 * (q - 47) + (y + 1) && 0 < y + 1 < 100;
    }
  }

  /** When a year of century q ends. */
  lemma {:induction false} YearEnds(q: nat, k: nat, y: nat, r: nat)
    requires k + 1 < CenturyDays(q) && 4 * k + 3 == 1461 * y + r && r < 1461
    requires r % 4 == 0 <==> y % 4 == 3
    ensures y <= 99
    ensures r + 4 < 1461 ==> r / 4 <= 364 && (r + 4) / 4 == r / 4 + 1 && (r / 4 == 364 ==> LongYear(q, y))
    ensures r + 4 >= 1461 ==> (r + 4 - 1461) / 4 == 0 && r / 4 == if LongYear(q, y) then 365 else 364
  {
  }

  /** Within a century the dates follow each other. */
  lemma {:induction false} NextInCentury(q: nat, k: nat)
    requires k + 1 < CenturyDays(q)
    ensures NextDay(FromCentury(q, k)) == FromCentury(q, k + 1)
  {
    hide Leap, FromMarch, NextDay, LongYear, CenturyDays;
    var y, r := QuarterDays(k);
    YearEnds(q, k, y, r);
    LeapInCentury(q, y);
    if r + 4 < 1461 {
      MarchNext(r / 4, 100 * q - 4700 + y);
    } else {
      MarchAgain(r / 4, 100 * q - 4700 + y);
    }
  }

  lemma {:induction false} NextCentury(q: nat)
    ensures NextDay(FromCentury(q, CenturyDays(q) - 1)) == FromCentury(q + 1, 0)
  {
    LeapInCentury(q, 99);
    hide Leap, FromMarch, NextDay;
    MarchAgain(if q % 4 == 2 then 365 else 364, 100 * q - 4700 + 99);
  }

  // ---------------------------------------------------------------- the calendar law

  /** Day 0 is 17 November 1858. */
  lemma {:induction false} Epoch()
    ensures Mjd2Cal(0) == Date(17, 11, 1858)
  {
    assert Century(2400001) == 65;
    assert Temp1(2400001) == 9600052;
    assert Temp2(2400001) == 2615;
  }

  /** The next day number is the next calendar day. */
  lemma {:induction false} NextDayLaw(mjd: nat)
    ensures Mjd2Cal(mjd + 1) == NextDay(Mjd2Cal(mjd))
  {
    var jd := mjd + 2400001;
    DateInCentury(mjd);
    DateInCentury(mjd + 1);
    var q := Century(jd);
    var k := jd - CenturyStart(q);
    CenturiesAbut(q);
    CenturiesAbut(q + 1);
    if k + 1 < CenturyDays(q) {
      CenturyOf(jd + 1, q);
      NextInCentury(q, k);
    } else {
      CenturyOf(jd + 1, q + 1);
      NextCentury(q);
    }
  }

  /** Every day number from 0 on gives the date that many days after 17 November 1858. */
  lemma {:induction false} DaysSinceEpoch(mjd: nat)
    ensures Mjd2Cal(mjd) == Later(Date(17, 11, 1858), mjd)
  {
    if mjd == 0 {
      Epoch();
    } else {
      DaysSinceEpoch(mjd - 1);
      NextDayLaw(mjd - 1);
    }
  }

  lemma {:induction false} NextIsDate(d: Date)
    requires IsDate(d)
    ensures IsDate(NextDay(d))
  {
    hide Leap;
  }

  /** And it is a date of the calendar. */
  lemma {:induction false} GivesDates(mjd: nat)
    ensures IsDate(Mjd2Cal(mjd))
  {
    if mjd == 0 {
      Epoch();
    } else {
      GivesDates(mjd - 1);
      NextIsDate(Mjd2Cal(mjd - 1));
      NextDayLaw(mjd - 1);
      hide Mjd2Cal, IsDate, NextDay;
    }
  }

  // ---------------------------------------------------------------- 32-bit arithmetic

  /** Every number that the closed form computes for a day fits in an int. */
  predicate FitsInt(mjd: nat) {
    var jd := mjd + 2400001;
    && 4 * jd <= INT_MAX
    && 6 * Century(jd) <= INT_MAX
    && Temp1(jd) <= INT_MAX
    && Temp2(jd) <= INT_MAX
  }

  /** The last day for which that is so. */
  const LAST_MJD := 534_459_923

  lemma {:induction false} ShiftGrows(q: nat, p: nat)
    requires q <= p
    ensures Shift(q) <= Shift(p)
  {
  }

  lemma {:induction false} Temp1Grows(jd: nat, kd: nat)
    requires 4480 <= jd <= kd
    ensures 4 * (kd - jd) <= Temp1(kd) - Temp1(jd)
  {
    ShiftGrows(Century(jd), Century(kd));
  }

  lemma {:induction false} FitsUntil(mjd: nat)
    ensures FitsInt(mjd) <==> mjd <= LAST_MJD
  {
    var jd, last := mjd + 2400001, LAST_MJD + 2400001;
    assert Century(last) == 14698;
    assert Temp1(last) == 2_147_483_644;
    if mjd <= LAST_MJD {
      Temp1Grows(jd, last);
    } else {
      Temp1Grows(last, jd);
    }
  }
}
