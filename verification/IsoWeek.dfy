/** ISO 8601 week dates of iso_week.h: a year, a week number and a weekday (1 is Monday). */
module IsoWeek {
  import opened CArith
  import opened Calendar
  import opened CivilCalendar
  import opened Weekdays

  datatype WeekDate = WeekDate(y: int, week: int, wd: int)

  const MON: int := 1
  const THU: int := 4

  /** `weekday::weekday_from_days` with `to_iso_encoding`: Sunday is 7. */
  function IsoWeekday(z: int): int {
    if Weekday(z) != 0 then Weekday(z) else 7
  }

  /** The last Thursday of December. */
  function LastThursday(y: int): int {
    LastWeekdayToDays(y, 12, THU)
  }

  /** `year_lastweek::weeknum`. */
  function LastWeek(y: int): int {
    TDiv(LastThursday(y) - LastThursday(y - 1), 7)
  }

  /** `year_weeknum_weekday::ok`. */
  predicate OkWeekDate(x: WeekDate) {
    1 <= x.wd <= 7 && 1 <= x.week <= LastWeek(x.y)
  }

  /** `year_weeknum_weekday::operator sys_days`. */
  function WeekDateToDays(x: WeekDate): int {
    LastThursday(x.y - 1) + WeekdayDiff(MON, THU) + S32(U32(x.week - 1)) * 7 + WeekdayDiff(x.wd, MON)
  }

  /** `year_weeknum_weekday::from_days`. */
  function WeekDateFromDays(n: int): WeekDate
  {
    var y := FromDays(n + 3).y;
    if n < LastThursday(y - 1) + WeekdayDiff(MON, THU) then WeekDateIn(y - 1, n) else WeekDateIn(y, n)
  }

  /** Day `n` as a day of week year `y`: the weeks are counted from its start. */
  function WeekDateIn(y: int, n: int): WeekDate
  {
    var start := LastThursday(y - 1) + WeekdayDiff(MON, THU);
    WeekDate(y, TDiv(n - start, 7) + 1, IsoWeekday(n))
  }

  // ----- Where a week year begins

  function YearFirst(y: int): int {
    MonthFirst(y, 1)
  }

  /** The Monday the code counts weeks of year `y` from. */
  function WeekYearStart(y: int): int {
    LastThursday(y - 1) + 4
  }

  lemma YearLength(y: int)
    ensures 365 <= YearFirst(y + 1) - YearFirst(y) <= 366
  {
    hide ToDays;
    Place(Date(y, 1, 1));
    Place(Date(y + 1, 1, 1));
    MarchFirstStep(y - 1);
  }

  lemma {:induction false} YearFirstGrows(y: int, z: int)
    requires y <= z
    ensures YearFirst(y) <= YearFirst(z)
    decreases z - y
  {
    hide YearFirst, WeekYearStart;
    if y < z {
      YearLength(y);
      YearFirstGrows(y + 1, z);
    }
  }

  /** A day belongs to the year whose first day it does not precede and the next one's it does. */
  lemma InYear(n: int, y: int)
    ensures FromDays(n).y == y <==> YearFirst(y) <= n < YearFirst(y + 1)
  {
    hide ToDays, FromDays;
    var x := FromDays(n);
    ToFromDays(n);
    OrderIsDayOrder(x, Date(y, 1, 1));
    OrderIsDayOrder(x, Date(y + 1, 1, 1));
  }

  lemma DecemberEnds(y: int)
    ensures ToDays(Date(y, 12, 31)) == YearFirst(y + 1) - 1
  {
    hide ToDays;
    NextDayNumber(Date(y, 12, 31));
  }

  /** A week year begins on a Monday within three days of 1 January. */
  lemma WeekYearStartPlace(y: int)
    ensures -3 <= WeekYearStart(y) - YearFirst(y) <= 3
    ensures IsoWeekday(WeekYearStart(y)) == MON
  {
    hide ToDays, Weekday, WeekdayDiff;
    DecemberEnds(y - 1);
    WeekdayReachedBack(ToDays(Date(y - 1, 12, 31)), THU);
    MondayAfter(LastThursday(y - 1));
  }

  lemma MondayAfter(n: int)
    requires Weekday(n) == THU
    ensures IsoWeekday(n + 4) == MON
  {
    hide Weekday;
    WeekdayValue(n);
    WeekdayValue(n + 4);
  }

  lemma MonOfThu()
    ensures WeekdayDiff(MON, THU) == 4
  {
    hide WeekdayDiff;
    WeekdayDiffValue(MON, THU);
  }

  /** Every week year has 52 or 53 whole weeks. */
  lemma WeeksInYear(y: int)
    ensures LastWeek(y) == 52 || LastWeek(y) == 53
    ensures WeekYearStart(y + 1) == WeekYearStart(y) + 7 * LastWeek(y)
  {
    hide LastThursday, YearFirst, Weekday;
    WeekYearStartPlace(y);
    WeekYearStartPlace(y + 1);
    YearLength(y);
    WholeWeeks(WeekYearStart(y), WeekYearStart(y + 1));
  }

  lemma WholeWeeks(a: int, b: int)
    requires 359 <= b - a <= 372 && Weekday(a) == 1 && Weekday(b) == 1
    ensures var w := TDiv(b - a, 7); (w == 52 || w == 53) && b == a + 7 * w
  {
    hide Weekday;
    WeekdayValue(a);
    WeekdayValue(b);
    WholeSevens(a, b);
    WeekQuotient(b - a);
  }

  lemma WholeSevens(a: int, b: int)
    requires 359 <= b - a <= 372 && (a + 4) % 7 == 1 && (b + 4) % 7 == 1
    ensures b - a == 364 || b - a == 371
  {
  }

  // ----- The bijection

  /** The conversion picks the week year that holds the day. */
  lemma WeekYearOf(n: int)
    ensures var y := WeekDateFromDays(n).y; WeekYearStart(y) <= n < WeekYearStart(y + 1)
  {
    hide *;
    var y := FromDays(n + 3).y;
    MonOfThu();
    InYear(n + 3, y);
    WeekYearStartPlace(y - 1);
    WeekYearStartPlace(y);
    WeekYearStartPlace(y + 1);
    YearLength(y - 1);
    Choice(n, y, WeekYearStart(y));
  }

  lemma Choice(n: int, y: int, start: int)
    requires y == FromDays(n + 3).y && start == WeekYearStart(y)
    ensures var z := if n < start then y - 1 else y; WeekDateFromDays(n) == WeekDateIn(z, n) && WeekDateIn(z, n).y == z
  {
    hide LastThursday, WeekdayDiff, FromDays, IsoWeekday;
    MonOfThu();
  }

  lemma WeekDateInValue(y: int, n: int)
    requires 0 <= n - WeekYearStart(y) < 400
    ensures WeekDateIn(y, n) == WeekDate(y, (n - WeekYearStart(y)) / 7 + 1, IsoWeekday(n))
  {
    hide LastThursday, WeekdayDiff, IsoWeekday;
    MonOfThu();
    WeekQuotient(n - WeekYearStart(y));
  }

  lemma WeekDateFromDaysValue(n: int)
    ensures var x := WeekDateFromDays(n); x.week == (n - WeekYearStart(x.y)) / 7 + 1 && x.wd == IsoWeekday(n)
  {
    hide *;
    var y := WeekDateFromDays(n).y;
    Choice(n, FromDays(n + 3).y, WeekYearStart(FromDays(n + 3).y));
    WeekYearOf(n);
    WeeksInYear(y);
    WeekDateInValue(y, n);
  }

  lemma WeekQuotient(k: int)
    requires 0 <= k < 400
    ensures TDiv(k, 7) == k / 7
  {
  }

  lemma WeekDateToDaysValue(x: WeekDate)
    requires 1 <= x.wd <= 7 && 1 <= x.week <= 53
    ensures WeekDateToDays(x) == WeekYearStart(x.y) + (x.week - 1) * 7 + x.wd - 1
  {
    hide LastThursday, WeekdayDiff;
    MonOfThu();
    WeekdayDiffValue(x.wd, MON);
    SmallIndex(x.week - 1);
  }

  lemma SmallIndex(w: int)
    requires 0 <= w < 100
    ensures S32(U32(w)) == w
  {
  }

  /** Every day number survives the conversion to a week date and back, and the week date is `ok()`. */
  lemma WeekDateToFrom(n: int)
    ensures OkWeekDate(WeekDateFromDays(n)) && WeekDateToDays(WeekDateFromDays(n)) == n
  {
    hide WeekYearStart, IsoWeekday, LastWeek, WeekDateFromDays, WeekDateToDays;
    var x := WeekDateFromDays(n);
    WeekYearOf(n);
    WeekDateFromDaysValue(n);
    WeeksInYear(x.y);
    WeekYearStartPlace(x.y);
    WeekAndDay(WeekYearStart(x.y), n, LastWeek(x.y));
    WeekDateToDaysValue(x);
  }

  lemma WeekAndDay(start: int, n: int, weeks: int)
    requires IsoWeekday(start) == 1 && 0 <= n - start < 7 * weeks
    ensures 1 <= (n - start) / 7 + 1 <= weeks && 1 <= IsoWeekday(n) <= 7
    ensures n == start + (n - start) / 7 * 7 + IsoWeekday(n) - 1
  {
    hide Weekday;
    WeekdayValue(start);
    WeekdayValue(n);
  }

  /** Every `ok()` week date survives the conversion to a day number and back. */
  lemma WeekDateFromTo(x: WeekDate)
    requires OkWeekDate(x)
    ensures WeekDateFromDays(WeekDateToDays(x)) == x
  {
    hide WeekYearStart, IsoWeekday, LastWeek, WeekDateFromDays, WeekDateToDays;
    var n := WeekDateToDays(x);
    WeeksInYear(x.y);
    WeekDateToDaysValue(x);
    var z := WeekDateFromDays(n);
    WeekYearOf(n);
    WeekDateFromDaysValue(n);
    if x.y < z.y { WeekYearGrows(x.y + 1, z.y); }
    if z.y < x.y { WeekYearGrows(z.y + 1, x.y); }
    WeekYearStartPlace(x.y);
    WeekAndDay(WeekYearStart(x.y), n, LastWeek(x.y));
    WeekDigits(n - WeekYearStart(x.y), x.week, x.wd);
  }

  lemma WeekDigits(k: int, week: int, wd: int)
    requires 1 <= wd <= 7 && k == (week - 1) * 7 + wd - 1
    ensures k / 7 == week - 1
  {
    hide YearFirst, WeekYearStart;
  }

  lemma {:induction false} WeekYearGrows(y: int, z: int)
    requires y <= z
    ensures WeekYearStart(y) <= WeekYearStart(z)
    decreases z - y
  {
    hide YearFirst, WeekYearStart;
    if y < z {
      WeeksInYear(y);
      WeekYearGrows(y + 1, z);
    }
  }

  /** The definition of the standard: a week belongs to the year its Thursday falls in, and
      week `w` is the one with the `w`-th Thursday of that year. In particular week 1 holds the
      year's first Thursday. */
  lemma WeekOfThursday(n: int)
    ensures var x := WeekDateFromDays(n);
      var thursday := n - x.wd + THU;
      && Weekday(thursday) == THU
      && FromDays(thursday).y == x.y
      && x.week == (thursday - YearFirst(x.y)) / 7 + 1
  {
    hide FromDays, YearFirst, WeekYearStart, Weekday, IsoWeekday, LastWeek, WeekDateFromDays, WeekDateToDays;
    var x := WeekDateFromDays(n);
    WeekDateToFrom(n);
    WeeksInYear(x.y);
    WeekDateToDaysValue(x);
    WeekYearStartPlace(x.y);
    WeekYearStartPlace(x.y + 1);
    var thursday := n - x.wd + THU;
    WeekDateFromDaysValue(n);
    ThursdayOf(n);
    InYear(thursday, x.y);
    WeekDigits(thursday - YearFirst(x.y), x.week, WeekYearStart(x.y) + 4 - YearFirst(x.y));
  }

  lemma ThursdayOf(n: int)
    ensures Weekday(n - IsoWeekday(n) + THU) == THU
  {
    hide Weekday;
    WeekdayValue(n);
    WeekdayValue(n - IsoWeekday(n) + THU);
    ThursdayMod(n + 4);
  }

  lemma ThursdayMod(a: int)
    ensures (a - (if a % 7 != 0 then a % 7 else 7) + 4) % 7 == 4
  {
    assert a == a / 7 * 7 + a % 7;
  }
}
