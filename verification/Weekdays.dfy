/** Weekdays of date.h (0 is Sunday) and the dates written as a weekday within a month. */
module Weekdays {
  import opened CArith
  import opened Calendar
  import opened CivilCalendar

  /** `weekday::weekday_from_days`. */
  function Weekday(z: int): int {
    if z >= -4 then TMod(z + 4, 7) else TMod(z + 5, 7) + 6
  }

  /** `operator-` on weekdays: the subtraction is unsigned and may wrap. */
  function WeekdayDiff(x: int, y: int): int {
    var diff := U32(x - y);
    if diff <= 6 then diff else U32(diff + 7)
  }

  /** `operator+` of a weekday and a number of days. */
  function WeekdayPlus(x: int, n: int): int {
    var wdu := x + n;
    var wk := TDiv(if wdu >= 0 then wdu else wdu - 6, 7);
    wdu - wk * 7
  }

  /** Both branches of the conversion count from Thursday, day zero. */
  lemma WeekdayValue(z: int)
    ensures Weekday(z) == (z + 4) % 7
  {
  }

  lemma WeekdayDiffValue(x: int, y: int)
    requires -7 < x - y < 7
    ensures WeekdayDiff(x, y) == (x - y) % 7
  {
    if x < y {
      assert U32(x - y) == x - y + 0x1_0000_0000;
      assert U32(x - y + 0x1_0000_0007) == x - y + 7;
    } else {
      assert U32(x - y) == x - y;
    }
  }

  lemma WeekdayPlusValue(x: int, n: int)
    ensures WeekdayPlus(x, n) == (x + n) % 7
  {
    var wdu := x + n;
    assert TDiv(if wdu >= 0 then wdu else wdu - 6, 7) == wdu / 7;
  }

  lemma Mod7(a: int, n: int)
    ensures (a % 7 + n) % 7 == (a + n) % 7
  {
    assert a == a / 7 * 7 + a % 7;
  }

  lemma Mod7Reaches(a: int, wd: int, j: int)
    requires 0 <= wd <= 6
    ensures (a + (wd - a % 7) % 7 + j * 7) % 7 == wd
  {
    assert a == a / 7 * 7 + a % 7;
  }

  lemma Mod7ReachesBack(a: int, wd: int)
    requires 0 <= wd <= 6
    ensures (a - (a % 7 - wd) % 7) % 7 == wd
  {
    assert a == a / 7 * 7 + a % 7;
  }

  lemma Mod7Equal(a: int, b: int)
    requires a % 7 == b % 7 && -7 < a - b < 7
    ensures a == b
  {
  }

  /** Adding days to the weekday of a day gives the weekday of the later day. */
  lemma WeekdayPlusDays(z: int, n: int)
    ensures WeekdayPlus(Weekday(z), n) == Weekday(z + n)
  {
    hide Weekday, WeekdayDiff, WeekdayPlus;
    var w := Weekday(z);
    WeekdayValue(z);
    WeekdayPlusValue(w, n);
    WeekdayValue(z + n);
    Mod7(z + 4, n);
    assert z + 4 + n == z + n + 4;
  }

  /** Subtraction of weekdays inverts addition, with a result of 0 to 6 days. */
  lemma WeekdayDiffInverts(x: int, y: int)
    requires 0 <= x <= 6 && 0 <= y <= 6
    ensures 0 <= WeekdayDiff(x, y) <= 6 && WeekdayPlus(y, WeekdayDiff(x, y)) == x
  {
    hide Weekday, WeekdayDiff, WeekdayPlus;
    WeekdayDiffValue(x, y);
    WeekdayPlusValue(y, WeekdayDiff(x, y));
  }

  /** Adding to a day the distance from its weekday to `wd`, and whole weeks, reaches `wd`. */
  lemma WeekdayReached(d: int, wd: int, j: int)
    requires 0 <= wd <= 6
    ensures 0 <= WeekdayDiff(wd, Weekday(d)) <= 6 && Weekday(d + WeekdayDiff(wd, Weekday(d)) + j * 7) == wd
  {
    hide Weekday, WeekdayDiff, WeekdayPlus;
    WeekdayValue(d);
    WeekdayDiffValue(wd, Weekday(d));
    WeekdayValue(d + WeekdayDiff(wd, Weekday(d)) + j * 7);
    Mod7Reaches(d + 4, wd, j);
  }

  /** Subtracting from a day its distance after `wd` reaches `wd`. */
  lemma WeekdayReachedBack(d: int, wd: int)
    requires 0 <= wd <= 6
    ensures 0 <= WeekdayDiff(Weekday(d), wd) <= 6 && Weekday(d - WeekdayDiff(Weekday(d), wd)) == wd
  {
    hide Weekday, WeekdayDiff, WeekdayPlus;
    WeekdayValue(d);
    WeekdayDiffValue(Weekday(d), wd);
    WeekdayValue(d - WeekdayDiff(Weekday(d), wd));
    Mod7ReachesBack(d + 4, wd);
  }

  /** Two days of the same weekday less than a week apart are the same day. */
  lemma SameWeekday(a: int, b: int)
    requires Weekday(a) == Weekday(b) && -7 < a - b < 7
    ensures a == b
  {
    hide Weekday, WeekdayDiff, WeekdayPlus;
    WeekdayValue(a);
    WeekdayValue(b);
    Mod7Equal(a + 4, b + 4);
  }

  // ----- Days of one month

  function MonthFirst(y: int, m: int): int {
    ToDays(Date(y, m, 1))
  }

  lemma DayShift(y: int, m: int, d: int)
    ensures ToDays(Date(y, m, d)) == MonthFirst(y, m) + d - 1
  {
  }

  lemma LastDayRange(y: int, m: int)
    requires 1 <= m <= 12
    ensures 28 <= LastDay(y, m) <= 31
  {
  }

  /** The days of a month are the ones from its first on, as many as it is long. */
  lemma InMonth(n: int, y: int, m: int)
    requires 1 <= m <= 12
    ensures (FromDays(n).y == y && FromDays(n).m == m) <==> 0 <= n - MonthFirst(y, m) < LastDay(y, m)
    ensures 0 <= n - MonthFirst(y, m) < LastDay(y, m) ==> FromDays(n) == Date(y, m, n - MonthFirst(y, m) + 1)
  {
    hide ToDays, FromDays;
    var k := n - MonthFirst(y, m);
    if 0 <= k < LastDay(y, m) {
      DayShift(y, m, k + 1);
      FromToDays(Date(y, m, k + 1));
    }
    var x := FromDays(n);
    if x.y == y && x.m == m {
      ToFromDays(n);
      DayShift(y, m, x.d);
    }
  }

  // ----- The n-th weekday of a month

  datatype MonthWeekday = MonthWeekday(y: int, m: int, wd: int, index: int)

  /** `days{(index - 1) * 7}`: the product is unsigned and wraps for index 0. */
  function IndexDays(index: int): int {
    S32(U32(U32(index - 1) * 7))
  }

  /** The `index`-th `wd` on or after day `d`. */
  function NthFrom(d: int, wd: int, index: int): int {
    d + WeekdayDiff(wd, Weekday(d)) + IndexDays(index)
  }

  /** `year_month_weekday::ok`. */
  predicate OkMonthWeekday(x: MonthWeekday) {
    if !(1 <= x.m <= 12) || !(0 <= x.wd <= 6) || x.index < 1 then false
    else if x.index <= 4 then true
    else WeekdayDiff(x.wd, Weekday(MonthFirst(x.y, x.m))) + (x.index - 1) * 7 + 1 <= LastDay(x.y, x.m)
  }

  /** `year_month_weekday::to_days`. */
  function MonthWeekdayToDays(x: MonthWeekday): int {
    NthFrom(MonthFirst(x.y, x.m), x.wd, x.index)
  }

  /** `year_month_weekday::from_days`. */
  function MonthWeekdayFromDays(n: int): MonthWeekday {
    var x := FromDays(n);
    MonthWeekday(x.y, x.m, Weekday(n), (x.d - 1) / 7 + 1)
  }

  lemma IndexDaysValue(index: int)
    requires 0 <= index < 16
    ensures IndexDays(index) == (index - 1) * 7
  {
    if index == 0 {
      assert U32(-1) == 0xFFFF_FFFF;
      assert U32(0xFFFF_FFFF * 7) == 0xFFFF_FFF9;
    } else {
      assert U32(index - 1) == index - 1;
      assert U32((index - 1) * 7) == (index - 1) * 7;
    }
  }

  /** The `index`-th week from `d` on holds the result, on the weekday asked for. */
  lemma NthFromPlace(d: int, wd: int, index: int)
    requires 0 <= wd <= 6 && 0 <= index < 16
    ensures var n := NthFrom(d, wd, index);
      && 0 <= n - d - (index - 1) * 7 <= 6 && Weekday(n) == wd
      && n - d == WeekdayDiff(wd, Weekday(d)) + (index - 1) * 7
  {
    hide Weekday, WeekdayDiff, IndexDays;
    IndexDaysValue(index);
    WeekdayReached(d, wd, index - 1);
  }

  /** A weekday and an index are valid exactly when they name a day of their own month. */
  lemma OkMonthWeekdayIff(x: MonthWeekday)
    requires 1 <= x.m <= 12 && 0 <= x.wd <= 6 && 0 <= x.index < 16
    ensures OkMonthWeekday(x) <==> 0 <= MonthWeekdayToDays(x) - MonthFirst(x.y, x.m) < LastDay(x.y, x.m)
  {
    hide MonthFirst, ToDays, FromDays, Weekday, WeekdayDiff, NthFrom;
    NthFromPlace(MonthFirst(x.y, x.m), x.wd, x.index);
    LastDayRange(x.y, x.m);
  }

  lemma IndexBounds(k: int)
    ensures var index := k / 7 + 1; (index - 1) * 7 <= k <= (index - 1) * 7 + 6
    ensures 0 <= k < 31 ==> 1 <= k / 7 + 1 <= 5
  {
  }

  lemma IndexUnique(k: int, i: int, j: int)
    requires (i - 1) * 7 <= k <= (i - 1) * 7 + 6 && (j - 1) * 7 <= k <= (j - 1) * 7 + 6
    ensures i == j
  {
  }

  /** Going to the day number and back gives the value back exactly when it is `ok()`. */
  lemma MonthWeekdayFromTo(x: MonthWeekday)
    requires 1 <= x.m <= 12 && 0 <= x.wd <= 6 && 0 <= x.index < 16
    ensures MonthWeekdayFromDays(MonthWeekdayToDays(x)) == x <==> OkMonthWeekday(x)
  {
    hide MonthFirst, ToDays, FromDays, Weekday, WeekdayDiff, NthFrom;
    var first, n := MonthFirst(x.y, x.m), MonthWeekdayToDays(x);
    NthFromPlace(first, x.wd, x.index);
    OkMonthWeekdayIff(x);
    InMonth(n, x.y, x.m);
    if OkMonthWeekday(x) {
      IndexBounds(n - first);
      IndexUnique(n - first, x.index, (n - first) / 7 + 1);
    }
  }

  /** Every day number survives the conversion to weekday and index and back. */
  lemma MonthWeekdayToFrom(n: int)
    ensures OkMonthWeekday(MonthWeekdayFromDays(n))
    ensures MonthWeekdayToDays(MonthWeekdayFromDays(n)) == n
  {
    hide MonthFirst, ToDays, FromDays, Weekday, WeekdayDiff, NthFrom;
    var d, x := FromDays(n), MonthWeekdayFromDays(n);
    ToFromDays(n);
    DayShift(d.y, d.m, d.d);
    LastDayRange(d.y, d.m);
    IndexBounds(d.d - 1);
    WeekdayValue(n);
    NthFromPlace(MonthFirst(d.y, d.m), x.wd, x.index);
    SameWeekday(n, MonthWeekdayToDays(x));
    OkMonthWeekdayIff(x);
  }

  // ----- The last weekday of a month

  /** `year_month_weekday_last::to_days`. */
  function LastWeekdayToDays(y: int, m: int, wd: int): int
    requires 1 <= m <= 12
  {
    var d := ToDays(Date(y, m, LastDay(y, m)));
    d - WeekdayDiff(Weekday(d), wd)
  }

  /** It is the latest day of its month that falls on that weekday. */
  lemma LastWeekdayIsLatest(y: int, m: int, wd: int)
    requires 1 <= m <= 12 && 0 <= wd <= 6
    ensures var n := LastWeekdayToDays(y, m, wd);
      && FromDays(n).y == y && FromDays(n).m == m && Weekday(n) == wd
      && forall k: int :: k > n && FromDays(k).y == y && FromDays(k).m == m ==> Weekday(k) != wd
  {
    hide MonthFirst, ToDays, FromDays, Weekday, WeekdayDiff;
    var n, d := LastWeekdayToDays(y, m, wd), ToDays(Date(y, m, LastDay(y, m)));
    LastDayRange(y, m);
    DayShift(y, m, LastDay(y, m));
    WeekdayReachedBack(d, wd);
    InMonth(n, y, m);
    forall k: int | k > n && FromDays(k).y == y && FromDays(k).m == m
      ensures Weekday(k) != wd
    {
      InMonth(k, y, m);
      if Weekday(k) == wd { SameWeekday(k, n); }
    }
  }
}
