/** The day of the year on which a time-zone rule takes effect: `detail::MonthDayTime` of tz.cpp. */
module MonthDay {
  import opened Calendar
  import opened CivilCalendar
  import opened Weekdays

  datatype Clock = Utc | Local | Standard

  /** The four ways tz data names a day: `month_day`, `month_last_dow`, `lteq` and `gteq`. */
  datatype On =
    | Fixed(m: int, d: int)
    | Last(m: int, wd: int)
    | OnOrBefore(m: int, d: int, wd: int)
    | OnOrAfter(m: int, d: int, wd: int)

  datatype MonthDayTime = MonthDayTime(on: On, seconds: int, clock: Clock)

  /** What the tz data reader guarantees of a day. */
  predicate ValidOn(on: On) {
    && 1 <= on.m <= 12
    && (!on.Last? ==> 1 <= on.d <= 31)
    && (!on.Fixed? ==> 0 <= on.wd <= 6)
  }

  /** `MonthDayTime::day`. */
  function DayOf(on: On): int {
    if on.Last? then 31 else on.d
  }

  /** `MonthDayTime::to_sys_days`. */
  function ToSysDays(on: On, y: int): int
    requires ValidOn(on)
  {
    match on
    case Fixed(m, d) => ToDays(Date(y, m, d))
    case Last(m, wd) => LastWeekdayToDays(y, m, wd)
    case OnOrBefore(m, d, wd) =>
      var x := ToDays(Date(y, m, d));
      x - WeekdayDiff(Weekday(x), wd)
    case OnOrAfter(m, d, wd) =>
      var x := ToDays(Date(y, m, d));
      x + WeekdayDiff(wd, Weekday(x))
  }

  /** `MonthDayTime::canonicalize`: the year's own date replaces the day description. */
  function Canonicalize(on: On, y: int): On
    requires ValidOn(on)
  {
    if on.Fixed? then on
    else
      var x := FromDays(ToSysDays(on, y));
      Fixed(x.m, x.d)
  }

  /** "On or before" names the only day of that weekday among the given day and the six before it. */
  lemma OnOrBeforeIsUnique(m: int, d: int, wd: int, y: int, n: int)
    requires ValidOn(OnOrBefore(m, d, wd))
    ensures var x := ToDays(Date(y, m, d));
      n == ToSysDays(OnOrBefore(m, d, wd), y) <==> x - 6 <= n <= x && Weekday(n) == wd
  {
    hide ToDays, Weekday, WeekdayDiff;
    var x := ToDays(Date(y, m, d));
    WeekdayReachedBack(x, wd);
    if x - 6 <= n <= x && Weekday(n) == wd { SameWeekday(n, ToSysDays(OnOrBefore(m, d, wd), y)); }
  }

  /** "On or after" names the only day of that weekday among the given day and the six after it. */
  lemma OnOrAfterIsUnique(m: int, d: int, wd: int, y: int, n: int)
    requires ValidOn(OnOrAfter(m, d, wd))
    ensures var x := ToDays(Date(y, m, d));
      n == ToSysDays(OnOrAfter(m, d, wd), y) <==> x <= n <= x + 6 && Weekday(n) == wd
  {
    hide ToDays, Weekday, WeekdayDiff;
    var x := ToDays(Date(y, m, d));
    WeekdayReached(x, wd, 0);
    if x <= n <= x + 6 && Weekday(n) == wd { SameWeekday(n, ToSysDays(OnOrAfter(m, d, wd), y)); }
  }

  /** The same month and day of different years are different days. */
  lemma YearsDiffer(y: int, z: int, m: int, d: int)
    requires y != z
    ensures ToDays(Date(y, m, d)) != ToDays(Date(z, m, d))
  {
    hide ToDays;
    var a, b := Date(y, m, d), Date(z, m, d);
    ToDaysValue(a);
    ToDaysValue(b);
    if y < z { MarchFirstGrows(My(a), My(b)); } else { MarchFirstGrows(My(b), My(a)); }
  }

  /** The day a description resolves to stays in the year it was resolved for. */
  predicate StaysInYear(on: On, y: int)
    requires ValidOn(on)
  {
    FromDays(ToSysDays(on, y)).y == y
  }

  lemma CanonicalizeIsValid(on: On, y: int)
    requires ValidOn(on)
    ensures ValidOn(Canonicalize(on, y))
  {
    hide FromDays, ToSysDays, ToDays;
    if !on.Fixed? {
      ToFromDays(ToSysDays(on, y));
      LastDayRange(FromDays(ToSysDays(on, y)).y, FromDays(ToSysDays(on, y)).m);
    }
  }

  /** A fixed date stays in its year, even one like 30 February that runs over into the next month. */
  lemma FixedStaysInYear(m: int, d: int, y: int)
    requires ValidOn(Fixed(m, d))
    ensures StaysInYear(Fixed(m, d), y)
  {
    hide FromDays, ToDays;
    var last := LastDay(y, m);
    if d <= last {
      FromToDays(Date(y, m, d));
    } else {
      var over := Date(y, m + 1, d - last);
      NextDayNumber(Date(y, m, last));
      DayShift(y, m, d);
      DayShift(y, m, last);
      DayShift(y, m + 1, d - last);
      FromToDays(over);
    }
  }

  /** Canonicalizing for a year keeps the day named in that year exactly when that day lies in it. */
  lemma CanonicalizeKeepsDay(on: On, y: int)
    requires ValidOn(on)
    ensures ValidOn(Canonicalize(on, y))
    ensures ToSysDays(Canonicalize(on, y), y) == ToSysDays(on, y) <==> StaysInYear(on, y)
  {
    hide FromDays, ToDays, LastWeekdayToDays, Weekday, WeekdayDiff;
    CanonicalizeIsValid(on, y);
    if on.Fixed? {
      FixedStaysInYear(on.m, on.d, y);
    } else {
      var n := ToSysDays(on, y);
      var x := FromDays(n);
      ToFromDays(n);
      if x.y != y { YearsDiffer(x.y, y, x.m, x.d); }
    }
  }

  /** The last weekday of a month always stays in its year. */
  lemma LastStaysInYear(m: int, wd: int, y: int)
    requires ValidOn(Last(m, wd))
    ensures StaysInYear(Last(m, wd), y)
  {
    LastWeekdayIsLatest(y, m, wd);
  }

  /** "Sunday on or before 1 January 2019" is 30 December 2018; canonicalized for 2019 it
      becomes 30 December 2019, a year late. */
  lemma CanonicalizeCanMoveADay()
    ensures ToSysDays(OnOrBefore(1, 1, 0), 2019) == ToDays(Date(2018, 12, 30))
    ensures Canonicalize(OnOrBefore(1, 1, 0), 2019) == Fixed(12, 30)
    ensures ToSysDays(Fixed(12, 30), 2019) == ToDays(Date(2019, 12, 30))
  {
    hide FromDays;
    var x := Date(2018, 12, 30);
    assert ToDays(Date(2019, 1, 1)) == 17897;
    assert Weekday(17897) == 2 && WeekdayDiff(2, 0) == 2;
    assert ToDays(x) == 17895;
    FromToDays(x);
  }
}
