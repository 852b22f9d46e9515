/**
 * The milk-delivery screen: a month calendar.  `currentDate` is an instant; the
 * screen shows the month it falls in, a grid of blank cells up to the weekday of
 * the 1st followed by one cell per day, and buttons that move a month back or on.
 */
module MilkDelivery {
  import opened Calendar

  /** The date the displayed month is read from (`getFullYear`, `getMonth`). */
  function Displayed(currentDate: int): (c: Civil)
    ensures ValidCivil(c)
  {
    CivilOf(DayOf(currentDate))
  }

  /** What `getDaysInMonth` returns: the weekday of the 1st and the number of days. */
  datatype MonthShape = MonthShape(firstDay: int, daysInMonth: int)

  /** `new Date(year, month, 1).getDay()`: the column of the 1st. */
  function FirstDay(c: Civil): (w: int)
    ensures 0 <= w < 7
  {
    Weekday(DayNumber(c.year, c.month, 1))
  }

  /**
   * `new Date(year, month + 1, 0).getDate()`: the date of day 0 of the next
   * month, which is the last day of this one, so the Gregorian month length.
   */
  function DaysInMonth(c: Civil): (n: int)
    requires 0 <= c.month < 12
    ensures n == MonthLength(c.year, c.month)
    ensures 28 <= n <= 31
    ensures n == 29 <==> c.month == 1 && IsLeap(c.year)
  {
    LastDayOfMonth(c.year, c.month);
    var last := CivilOf(DayNumber(c.year, c.month + 1, 0));
    assert last.day == MonthLength(c.year, c.month);
    last.day
  }

  /** `getDaysInMonth` for the displayed month `c`. */
  function ShapeOf(c: Civil): MonthShape
    requires 0 <= c.month < 12
  {
    MonthShape(FirstDay(c), DaysInMonth(c))
  }

  /** `getDaysInMonth(currentDate)`. */
  function GetDaysInMonth(currentDate: int): (s: MonthShape)
    ensures var c := Displayed(currentDate);
            s.firstDay == Weekday(DayNumber(c.year, c.month, 1)) && 0 <= s.firstDay < 7
            && s.daysInMonth == MonthLength(c.year, c.month) && 28 <= s.daysInMonth <= 31
  {
    ShapeOf(Displayed(currentDate))
  }

  /** Day 0 of the next month is the last day of this one. */
  lemma LastDayOfMonth(y: int, m: int)
    requires 0 <= m < 12
    ensures DayNumber(y, m + 1, 0) == DayNumber(y, m, MonthLength(y, m))
    ensures CivilOf(DayNumber(y, m + 1, 0)) == Civil(y, m, MonthLength(y, m))
  {
    var len := MonthLength(y, m);
    MonthStartStep(y, m);
    DayNumberInMonth(y, m, len);
    if m < 11 {
      DayNumberInMonth(y, m + 1, 0);
    } else {
      DayNumberMonthAfter(y, 0);
      DayNumberInMonth(y + 1, 0, 0);
      YearStartStep(y);
    }
    CivilOfDayNumber(Civil(y, m, len));
  }

  /** `new Date(year, month - 1)` for the displayed month `c`: the previous month's 1st. */
  function PrevMonthOf(c: Civil): int {
    Midnight(c.year, c.month - 1, 1)
  }

  /** `new Date(year, month + 1)` for the displayed month `c`: the next month's 1st. */
  function NextMonthOf(c: Civil): int {
    Midnight(c.year, c.month + 1, 1)
  }

  /** The "previous month" button: `currentDate` becomes the 1st of the month before. */
  function PrevMonth(currentDate: int): (d: int)
    ensures var c := Displayed(currentDate);
            Displayed(d) == if c.month == 0 then Civil(c.year - 1, 11, 1) else Civil(c.year, c.month - 1, 1)
  {
    PrevMonthShown(Displayed(currentDate));
    PrevMonthOf(Displayed(currentDate))
  }

  /** The "next month" button: `currentDate` becomes the 1st of the month after. */
  function NextMonth(currentDate: int): (d: int)
    ensures var c := Displayed(currentDate);
            Displayed(d) == if c.month == 11 then Civil(c.year + 1, 0, 1) else Civil(c.year, c.month + 1, 1)
  {
    NextMonthShown(Displayed(currentDate));
    NextMonthOf(Displayed(currentDate))
  }

  /** The month before is shown from its 1st; January goes back to December of the year before. */
  lemma PrevMonthShown(c: Civil)
    requires 0 <= c.month < 12
    ensures c.month == 0 ==> Displayed(PrevMonthOf(c)) == Civil(c.year - 1, 11, 1)
    ensures c.month > 0 ==> Displayed(PrevMonthOf(c)) == Civil(c.year, c.month - 1, 1)
  {
    if c.month == 0 {
      PrevOfJanuary(c);
    } else {
      PrevWithinYear(c);
    }
  }

  /** The month after is shown from its 1st; December goes on to January of the year after. */
  lemma NextMonthShown(c: Civil)
    requires 0 <= c.month < 12
    ensures c.month == 11 ==> Displayed(NextMonthOf(c)) == Civil(c.year + 1, 0, 1)
    ensures c.month < 11 ==> Displayed(NextMonthOf(c)) == Civil(c.year, c.month + 1, 1)
  {
    if c.month == 11 {
      NextOfDecember(c);
    } else {
      NextWithinYear(c);
    }
  }

  lemma PrevWithinYear(c: Civil)
    requires 0 < c.month < 12
    ensures Displayed(PrevMonthOf(c)) == Civil(c.year, c.month - 1, 1)
  {
    ReadBackFirst(c.year, c.month - 1);
  }

  lemma NextWithinYear(c: Civil)
    requires 0 <= c.month < 11
    ensures Displayed(NextMonthOf(c)) == Civil(c.year, c.month + 1, 1)
  {
    ReadBackFirst(c.year, c.month + 1);
  }

  /** Month -1 of year `y` is December of `y - 1`. */
  lemma PrevOfJanuary(c: Civil)
    requires c.month == 0
    ensures Displayed(PrevMonthOf(c)) == Civil(c.year - 1, 11, 1)
  {
    DayNumberMonthBefore(c.year, 1);
    assert PrevMonthOf(c) == Midnight(c.year - 1, 11, 1);
    ReadBackFirst(c.year - 1, 11);
  }

  /** Month 12 of year `y` is January of `y + 1`. */
  lemma NextOfDecember(c: Civil)
    requires c.month == 11
    ensures Displayed(NextMonthOf(c)) == Civil(c.year + 1, 0, 1)
  {
    DayNumberMonthAfter(c.year, 1);
    assert NextMonthOf(c) == Midnight(c.year + 1, 0, 1);
    ReadBackFirst(c.year + 1, 0);
  }

  /** Local midnight of the 1st of a month is displayed as that month. */
  lemma ReadBackFirst(y: int, m: int)
    requires 0 <= m < 12
    ensures Displayed(Midnight(y, m, 1)) == Civil(y, m, 1)
  {
    assert DayOf(Midnight(y, m, 1)) == DayNumber(y, m, 1);
    CivilOfDayNumber(Civil(y, m, 1));
  }

  /** Moving back a month and then on a month shows the same month again. */
  lemma {:induction false} NextAfterPrev(currentDate: int)
    ensures Displayed(NextMonth(PrevMonth(currentDate))).year == Displayed(currentDate).year
    ensures Displayed(NextMonth(PrevMonth(currentDate))).month == Displayed(currentDate).month
  {
    var c := Displayed(currentDate);
    PrevMonthShown(c);
    NextMonthShown(Displayed(PrevMonthOf(c)));
  }

  /** Moving on a month and then back a month shows the same month again. */
  lemma {:induction false} PrevAfterNext(currentDate: int)
    ensures Displayed(PrevMonth(NextMonth(currentDate))).year == Displayed(currentDate).year
    ensures Displayed(PrevMonth(NextMonth(currentDate))).month == Displayed(currentDate).month
  {
    var c := Displayed(currentDate);
    NextMonthShown(c);
    PrevMonthShown(Displayed(NextMonthOf(c)));
  }

  /** One cell of the grid below the Sun..Sat header. */
  datatype Cell = Blank | Day(day: int, isToday: bool)

  /** The `isToday` test: the cell's day, and the displayed month and year, are today's. */
  predicate IsToday(day: int, shown: Civil, today: Civil) {
    day == today.day && shown.month == today.month && shown.year == today.year
  }

  /**
   * The grid for a month whose 1st falls in column `firstDay` and which has
   * `daysInMonth` days: `firstDay` blank cells, then the cells numbered
   * 1..daysInMonth, with the today mark on the cell whose day, month and year are
   * today's.
   */
  function GridOf(shape: MonthShape, shown: Civil, today: Civil): (cells: seq<Cell>)
    requires 0 <= shape.firstDay && 0 <= shape.daysInMonth
    ensures |cells| == shape.firstDay + shape.daysInMonth
    ensures forall i :: 0 <= i < shape.firstDay ==> cells[i] == Blank
    ensures forall i :: shape.firstDay <= i < |cells| ==>
              cells[i] == Day(i - shape.firstDay + 1, IsToday(i - shape.firstDay + 1, shown, today))
  {
    seq(shape.firstDay, _ => Blank)
      + seq(shape.daysInMonth, i => Day(i + 1, IsToday(i + 1, shown, today)))
  }

  /**
   * The grid the screen draws for `currentDate` at instant `now`: as many blanks
   * as the weekday of the displayed month's 1st, then the days 1..daysInMonth in
   * order.
   */
  function Grid(currentDate: int, now: int): (cells: seq<Cell>)
    ensures var s := GetDaysInMonth(currentDate);
            |cells| == s.firstDay + s.daysInMonth
            && forall i :: 0 <= i < |cells| ==>
                 (cells[i].Day? <==> s.firstDay <= i) && (cells[i].Day? ==> cells[i].day == i - s.firstDay + 1)
  {
    var shape, shown, today := GetDaysInMonth(currentDate), Displayed(currentDate), CivilOf(DayOf(now));
    GridOf(shape, shown, today)
  }

  /**
   * At most one cell is marked as today, and a marked cell means the displayed
   * month and year are today's.
   */
  lemma AtMostOneToday(shape: MonthShape, shown: Civil, today: Civil, i: int, j: int)
    requires 0 <= shape.firstDay && 0 <= shape.daysInMonth
    requires var cells := GridOf(shape, shown, today);
             0 <= i < |cells| && 0 <= j < |cells|
             && cells[i].Day? && cells[i].isToday && cells[j].Day? && cells[j].isToday
    ensures i == j
    ensures shown.year == today.year && shown.month == today.month
  {
  }

  /**
   * Each day sits in the column of its weekday: the cell of day `d` has index
   * `firstDay + d - 1`, and that index modulo 7 is `getDay()` of the day.
   */
  lemma DayUnderItsWeekday(c: Civil, d: int)
    requires 0 <= c.month < 12
    ensures (FirstDay(c) + d - 1) % 7 == Weekday(DayNumber(c.year, c.month, d))
  {
    DayNumberInMonth(c.year, c.month, d);
    DayNumberInMonth(c.year, c.month, 1);
    WeekdayShift(DayNumber(c.year, c.month, 1), d - 1);
  }

  /** Moving `k` days on moves the weekday `k` places round the week. */
  lemma WeekdayShift(n: int, k: int)
    ensures (Weekday(n) + k) % 7 == Weekday(n + k)
  {
    var q := (n + 4) / 7;
    assert n + 4 == 7 * q + Weekday(n);
    assert n + k + 4 == 7 * q + (Weekday(n) + k);
  }
}
