/**
 * The part of JavaScript's `Date` that the components use, on integer time.
 *
 * An instant is a number of milliseconds since 1970-01-01T00:00 (the model takes
 * the local time zone to be UTC).  A calendar day is a day number, 0 being
 * 1970-01-01.  `DayNumber` follows `new Date(y, m, d)`: a month outside 0..11
 * moves the year, and a day outside the month runs into the neighbouring one
 * (day 0 is the last day of the previous month, 29 February of a common year is
 * 1 March).  `Civil` is the inverse reading, `getFullYear`/`getMonth`/`getDate`.
 */
module Calendar {

  const MsPerDay: int := 86400000
  const MsPerHour: int := 3600000

  /** Gregorian leap rule. */
  predicate IsLeap(y: int) {
    (y % 4 == 0 && y % 100 != 0) || y % 400 == 0
  }

  function YearLength(y: int): int {
    if IsLeap(y) then 366 else 365
  }

  /** Day number of 1 January of year `y`. */
  function YearStart(y: int): int
    decreases if y >= 1970 then y - 1970 else 1970 - y
  {
    if y == 1970 then 0
    else if y > 1970 then YearStart(y - 1) + YearLength(y - 1)
    else YearStart(y + 1) - YearLength(y)
  }

  lemma YearStartStep(y: int)
    ensures YearStart(y + 1) == YearStart(y) + YearLength(y)
  {
  }

  lemma {:induction false} YearStartMonotone(a: int, b: int)
    requires a <= b
    ensures YearStart(a) + 365 * (b - a) <= YearStart(b)
    decreases b - a
  {
    if a < b {
      YearStartMonotone(a, b - 1);
      YearStartStep(b - 1);
    }
  }

  /** Days in month `m` (0 = January) of year `y`. */
  function MonthLength(y: int, m: int): (n: int)
    requires 0 <= m < 12
    ensures 28 <= n <= 31
  {
    if m == 1 then (if IsLeap(y) then 29 else 28)
    else if m == 3 || m == 5 || m == 8 || m == 10 then 30
    else 31
  }

  /** Days of year `y` before the first of month `m`; `MonthStart(y, 12)` is the year's length. */
  function MonthStart(y: int, m: int): int
    requires 0 <= m <= 12
  {
    (if m < 6 then
       (if m < 3 then (if m == 0 then 0 else if m == 1 then 31 else 59)
        else (if m == 3 then 90 else if m == 4 then 120 else 151))
     else if m < 9 then (if m == 6 then 181 else if m == 7 then 212 else 243)
     else (if m == 9 then 273 else if m == 10 then 304 else if m == 11 then 334 else 365))
      + (if m >= 2 && IsLeap(y) then 1 else 0)
  }

  lemma MonthStartStep(y: int, m: int)
    requires 0 <= m < 12
    ensures MonthStart(y, m + 1) == MonthStart(y, m) + MonthLength(y, m)
    ensures MonthStart(y, 12) == YearLength(y)
  {
  }

  /** `new Date(y, m, d)` as a day number (the MakeDay rule of ECMAScript). */
  function DayNumber(y: int, m: int, d: int): int {
    var ym := y + m / 12;
    var mn := m % 12;
    YearStart(ym) + MonthStart(ym, mn) + d - 1
  }

  /** Within the year: a month in 0..11 needs no normalisation. */
  lemma DayNumberInMonth(y: int, m: int, d: int)
    requires 0 <= m < 12
    ensures DayNumber(y, m, d) == YearStart(y) + MonthStart(y, m) + d - 1
  {
    assert m / 12 == 0 && m % 12 == m;
  }

  /** Month -1 is December of the year before. */
  lemma DayNumberMonthBefore(y: int, d: int)
    ensures DayNumber(y, -1, d) == DayNumber(y - 1, 11, d)
  {
    assert -1 / 12 == -1 && -1 % 12 == 11;
    DayNumberInMonth(y - 1, 11, d);
  }

  /** Month 12 is January of the year after. */
  lemma DayNumberMonthAfter(y: int, d: int)
    ensures DayNumber(y, 12, d) == DayNumber(y + 1, 0, d)
  {
    assert 12 / 12 == 1 && 12 % 12 == 0;
    DayNumberInMonth(y + 1, 0, d);
  }

  /** A normalised calendar date: `month` in 0..11, `day` within the month. */
  datatype Civil = Civil(year: int, month: int, day: int)

  predicate ValidCivil(c: Civil) {
    0 <= c.month < 12 && 1 <= c.day <= MonthLength(c.year, c.month)
  }

  function YearUp(y: int, n: int): (r: int)
    requires YearStart(y) <= n
    ensures YearStart(r) <= n < YearStart(r + 1)
    decreases n - YearStart(y)
  {
    YearStartStep(y);
    if n < YearStart(y + 1) then y else YearUp(y + 1, n)
  }

  function YearDown(y: int, n: int): (r: int)
    requires n < YearStart(y + 1)
    ensures YearStart(r) <= n < YearStart(r + 1)
    decreases YearStart(y + 1) - n
  {
    YearStartStep(y);
    if YearStart(y) <= n then y else YearDown(y - 1, n)
  }

  /** The year that contains day `n`. */
  function YearOf(n: int): (y: int)
    ensures YearStart(y) <= n < YearStart(y + 1)
  {
    if n >= 0 then YearUp(1970, n) else YearDown(1969, n)
  }

  function MonthFrom(y: int, k: int, m: int): (r: int)
    requires 0 <= m < 12 && MonthStart(y, m) <= k < YearLength(y)
    ensures m <= r < 12 && MonthStart(y, r) <= k < MonthStart(y, r + 1)
    decreases 12 - m
  {
    MonthStartStep(y, m);
    if k < MonthStart(y, m + 1) then m else MonthFrom(y, k, m + 1)
  }

  /** `getFullYear()`, `getMonth()` and `getDate()` of day `n`. */
  function CivilOf(n: int): (c: Civil)
    ensures ValidCivil(c) && DayNumber(c.year, c.month, c.day) == n
  {
    var y := YearOf(n);
    YearStartStep(y);
    MonthStartStep(y, 0);
    var m := MonthFrom(y, n - YearStart(y), 0);
    MonthStartStep(y, m);
    Civil(y, m, n - YearStart(y) - MonthStart(y, m) + 1)
  }

  /** Only one year contains a given day. */
  lemma YearUnique(y1: int, y2: int, n: int)
    requires YearStart(y1) <= n < YearStart(y1 + 1)
    requires YearStart(y2) <= n < YearStart(y2 + 1)
    ensures y1 == y2
  {
    if y1 < y2 {
      YearStartMonotone(y1 + 1, y2);
    } else if y2 < y1 {
      YearStartMonotone(y2 + 1, y1);
    }
  }

  /** A valid date's day number lies in its year, and after the start of its month. */
  lemma DayInYear(c: Civil)
    requires ValidCivil(c)
    ensures YearStart(c.year) <= DayNumber(c.year, c.month, c.day) < YearStart(c.year + 1)
    ensures DayNumber(c.year, c.month, c.day) == YearStart(c.year) + MonthStart(c.year, c.month) + c.day - 1
  {
    assert c.month / 12 == 0 && c.month % 12 == c.month;
    MonthStartStep(c.year, c.month);
    MonthStartMonotone(c.year, c.month + 1, 12);
    YearStartStep(c.year);
  }

  /** Distinct valid dates have distinct day numbers. */
  lemma DayNumberInjective(c1: Civil, c2: Civil)
    requires ValidCivil(c1) && ValidCivil(c2)
    requires DayNumber(c1.year, c1.month, c1.day) == DayNumber(c2.year, c2.month, c2.day)
    ensures c1 == c2
  {
    var n := DayNumber(c1.year, c1.month, c1.day);
    DayInYear(c1);
    DayInYear(c2);
    YearUnique(c1.year, c2.year, n);
    var y := c1.year;
    MonthStartStep(y, c1.month);
    MonthStartStep(y, c2.month);
    if c1.month < c2.month {
      MonthStartMonotone(y, c1.month + 1, c2.month);
    } else if c2.month < c1.month {
      MonthStartMonotone(y, c2.month + 1, c1.month);
    }
  }

  /** A normalised date is read back unchanged: `CivilOf` inverts `DayNumber` on valid dates. */
  lemma CivilOfDayNumber(c: Civil)
    requires ValidCivil(c)
    ensures CivilOf(DayNumber(c.year, c.month, c.day)) == c
  {
    var r := CivilOf(DayNumber(c.year, c.month, c.day));
    DayNumberInjective(r, c);
  }

  lemma MonthStartMonotone(y: int, a: int, b: int)
    requires 0 <= a <= b <= 12
    ensures MonthStart(y, a) <= MonthStart(y, b)
  {
  }

  /** Day of the week of day `n`, 0 = Sunday (1970-01-01 was a Thursday): `getDay()`. */
  function Weekday(n: int): (w: int)
    ensures 0 <= w < 7
  {
    (n + 4) % 7
  }

  lemma WeekdayNext(n: int)
    ensures Weekday(n + 1) == (Weekday(n) + 1) % 7
    ensures Weekday(n + 7) == Weekday(n)
  {
  }

  /** The calendar day an instant falls on. */
  function DayOf(t: int): int {
    t / MsPerDay
  }

  /** `new Date(y, m, d)` as an instant: local midnight of that day. */
  function Midnight(y: int, m: int, d: int): int {
    DayNumber(y, m, d) * MsPerDay
  }

  /**
   * `new Date(now.getFullYear(), date.getMonth(), date.getDate())`, moved on
   * with `setFullYear(now.getFullYear() + 1)` when it lies before `now`: the
   * next birthday or anniversary of the day that `date` falls on. The first
   * `Date` is normalised before the year is set again, so a 29 February seen
   * in a common year has already become 1 March.
   */
  function NextOccurrence(date: int, now: int): (r: int)
    ensures now <= r < now + 366 * MsPerDay
  {
    var c := CivilOf(DayOf(date));
    var y := CivilOf(DayOf(now)).year;
    var d := CivilOf(DayNumber(y, c.month, c.day));
    OccurrenceYear(c, y);
    NextOccurrenceBounds(d, y, now);
    var thisYear := Midnight(y, d.month, d.day);
    if thisYear < now then Midnight(y + 1, d.month, d.day) else thisYear
  }

  /** A month and day of a valid date, placed in year `y`, normalise to a date of year `y`. */
  lemma OccurrenceYear(c: Civil, y: int)
    requires ValidCivil(c)
    ensures CivilOf(DayNumber(y, c.month, c.day)).year == y
  {
    var n := DayNumber(y, c.month, c.day);
    OccurrenceDays(c, y);
    DayInYear(CivilOf(n));
    YearUnique(y, CivilOf(n).year, n);
  }

  /** Day-level facts behind `NextOccurrence`: where a month/day lands in year `y` and in `y + 1`. */
  lemma OccurrenceDays(c: Civil, y: int)
    requires ValidCivil(c)
    ensures YearStart(y) <= DayNumber(y, c.month, c.day) < YearStart(y + 1)
    ensures YearStart(y + 1) <= DayNumber(y + 1, c.month, c.day)
    ensures DayNumber(y + 1, c.month, c.day) <= DayNumber(y, c.month, c.day) + 366
  {
    assert c.month / 12 == 0 && c.month % 12 == c.month;
    YearStartStep(y);
    YearStartStep(y + 1);
    MonthStartStep(y, c.month);
    MonthStartStep(y, 11);
    assert MonthStart(y + 1, c.month) <= MonthStart(y, c.month) + 1;
  }

  lemma NextOccurrenceBounds(c: Civil, y: int, now: int)
    requires ValidCivil(c)
    requires y == CivilOf(DayOf(now)).year
    ensures var t := Midnight(y, c.month, c.day);
            var u := Midnight(y + 1, c.month, c.day);
            (t >= now ==> t < now + 366 * MsPerDay)
            && (t < now ==> now <= u < now + 366 * MsPerDay)
  {
    var n := DayOf(now);
    YearUnique(y, YearOf(n), n);
    OccurrenceDays(c, y);
    var dt := DayNumber(y, c.month, c.day);
    var du := DayNumber(y + 1, c.month, c.day);
    assert n * MsPerDay <= now < (n + 1) * MsPerDay;
    assert dt <= n + 365;
    assert du >= n + 1;
  }

  /**
   * Away from 29 February, the next occurrence falls at midnight on the same
   * month and day as `date`: in the current year, or in the one after exactly
   * when this year's midnight of that day lies before `now`.
   */
  lemma NextOccurrenceSameDay(date: int, now: int)
    requires var c := CivilOf(DayOf(date)); !(c.month == 1 && c.day == 29)
    ensures var c := CivilOf(DayOf(date));
            var r := NextOccurrence(date, now);
            var y := CivilOf(DayOf(now)).year;
            var o := CivilOf(DayOf(r));
            r % MsPerDay == 0 && o.month == c.month && o.day == c.day
            && (o.year == y || o.year == y + 1)
            && (o.year == y + 1 <==> Midnight(y, c.month, c.day) < now)
  {
    var c := CivilOf(DayOf(date));
    var y := CivilOf(DayOf(now)).year;
    var a := Civil(y, c.month, c.day);
    var b := Civil(y + 1, c.month, c.day);
    InAnyYear(c, y);
    InAnyYear(c, y + 1);
    CivilOfDayNumber(a);
    assert CivilOf(DayNumber(y, c.month, c.day)) == a;
    var r := NextOccurrence(date, now);
    if Midnight(y, c.month, c.day) < now {
      assert r == Midnight(y + 1, c.month, c.day);
      MidnightReadsBack(b);
    } else {
      assert r == Midnight(y, c.month, c.day);
      MidnightReadsBack(a);
    }
  }

  /** Midnight of a valid date is a whole number of days, and reads back as that date. */
  lemma MidnightReadsBack(c: Civil)
    requires ValidCivil(c)
    ensures Midnight(c.year, c.month, c.day) % MsPerDay == 0
    ensures CivilOf(DayOf(Midnight(c.year, c.month, c.day))) == c
  {
    var n := DayNumber(c.year, c.month, c.day);
    assert (n * MsPerDay) / MsPerDay == n && (n * MsPerDay) % MsPerDay == 0;
    CivilOfDayNumber(c);
  }

  /** A valid month and day other than 29 February is a valid date of every year. */
  lemma InAnyYear(c: Civil, y: int)
    requires ValidCivil(c) && !(c.month == 1 && c.day == 29)
    ensures ValidCivil(Civil(y, c.month, c.day))
  {
  }
}
