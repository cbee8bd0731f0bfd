/** The Gregorian calendar counted day by day, as a reference for the closed forms. */
module CivilCalendar {
  import opened Calendar

  const EPOCH := Date(1970, 1, 1)

  /** The day after `x`. */
  function NextDay(x: Date): Date
    requires Ok(x)
  {
    if x.d < LastDay(x.y, x.m) then Date(x.y, x.m, x.d + 1)
    else if x.m < 12 then Date(x.y, x.m + 1, 1)
    else Date(x.y + 1, 1, 1)
  }

  /** The day before `x`. */
  function PreviousDay(x: Date): Date
    requires Ok(x)
  {
    if x.d > 1 then Date(x.y, x.m, x.d - 1)
    else if x.m > 1 then Date(x.y, x.m - 1, LastDay(x.y, x.m - 1))
    else Date(x.y - 1, 12, 31)
  }

  /** The date `n` days after 1 January 1970, found by walking there one day at a time. */
  ghost function Walk(n: int): (x: Date)
    ensures Ok(x)
    decreases if n < 0 then -n else n
  {
    if n == 0 then EPOCH
    else if n > 0 then NextDay(Walk(n - 1))
    else PreviousDay(Walk(n + 1))
  }

  /** Day number of the first day of a March-based year. */
  function MarchFirst(y: int): int {
    y / 400 * 146097 + MarchYear(y % 400) - 719468
  }

  lemma MarchFirstStep(y: int)
    ensures MarchFirst(y + 1) == MarchFirst(y) + MarchYearLength(y % 400)
  {
    if y % 400 == 399 {
      assert (y + 1) / 400 == y / 400 + 1 && (y + 1) % 400 == 0;
    } else {
      assert (y + 1) / 400 == y / 400 && (y + 1) % 400 == y % 400 + 1;
      MarchYearStep(y % 400);
    }
  }

  lemma {:induction false} MarchFirstGrows(y: int, z: int)
    requires y < z
    ensures MarchFirst(y) + MarchYearLength(y % 400) <= MarchFirst(z)
    decreases z - y
  {
    MarchFirstStep(y);
    if y + 1 < z { MarchFirstGrows(y + 1, z); }
  }

  /** Where a valid date lies in its March-based year. */
  lemma Place(x: Date)
    requires Ok(x)
    ensures ToDays(x) == MarchFirst(My(x)) + MarchMonth(Mp(x.m)) + x.d - 1
    ensures 0 <= MarchMonth(Mp(x.m)) + x.d - 1 < MarchYearLength(My(x) % 400)
  {
    hide ToDays;
    ToDaysValue(x);
    OkInMarchYear(x);
    MonthLengths(x.m);
  }

  lemma MarchMonthGrows(a: int, b: int)
    requires 0 <= a < b < 12
    ensures MarchMonth(a + 1) <= MarchMonth(b)
  {
  }

  lemma BeforeImpliesSmaller(a: Date, b: Date)
    requires Ok(a) && Ok(b) && Before(a, b)
    ensures ToDays(a) < ToDays(b)
  {
    hide ToDays, MarchFirst;
    Place(a);
    Place(b);
    OkInMarchYear(a);
    if My(a) < My(b) {
      MarchFirstGrows(My(a), My(b));
    } else if Mp(a.m) < Mp(b.m) {
      MarchMonthGrows(Mp(a.m), Mp(b.m));
    }
  }

  /** Date order is day-number order. */
  lemma OrderIsDayOrder(a: Date, b: Date)
    requires Ok(a) && Ok(b)
    ensures Before(a, b) <==> ToDays(a) < ToDays(b)
  {
    hide ToDays;
    if Before(a, b) {
      BeforeImpliesSmaller(a, b);
    } else if a != b {
      BeforeImpliesSmaller(b, a);
    }
  }

  /** In a March-based year every month but the last is followed by the next one. */
  lemma MonthEnd(y: int, m: int)
    requires 1 <= m <= 12
    ensures m != 2 ==> MarchMonth(Mp(m)) + LastDay(y, m) == MarchMonth(if m < 12 then Mp(m + 1) else Mp(1))
    ensures m == 2 ==> MarchMonth(Mp(2)) + LastDay(y, 2) == MarchYearLength((y - 1) % 400)
  {
    if m == 2 {
      LeapEuclid(y);
      LeapMarchYear(y);
    }
  }

  lemma NextDayOk(x: Date)
    requires Ok(x)
    ensures Ok(NextDay(x))
  {
  }

  /** The next civil day has the next day number. */
  lemma NextDayNumber(x: Date)
    requires Ok(x)
    ensures Ok(NextDay(x)) && ToDays(NextDay(x)) == ToDays(x) + 1
  {
    hide ToDays, MarchFirst, MarchMonth;
    var n := NextDay(x);
    NextDayOk(x);
    Place(x);
    Place(n);
    NextPlace(x);
  }

  lemma NextPlace(x: Date)
    requires Ok(x)
    ensures var n := NextDay(x);
      MarchFirst(My(n)) + MarchMonth(Mp(n.m)) + n.d == MarchFirst(My(x)) + MarchMonth(Mp(x.m)) + x.d + 1
  {
    if x.d == LastDay(x.y, x.m) {
      MonthEnd(x.y, x.m);
      if x.m == 2 { MarchFirstStep(x.y - 1); }
    }
  }

  lemma PreviousThenNext(x: Date)
    requires Ok(x)
    ensures Ok(PreviousDay(x)) && NextDay(PreviousDay(x)) == x
  {
  }

  lemma StepForward(n: int)
    ensures Ok(FromDays(n)) && FromDays(n + 1) == NextDay(FromDays(n))
  {
    hide ToDays, FromDays;
    ToFromDays(n);
    NextDayNumber(FromDays(n));
    FromToDays(NextDay(FromDays(n)));
  }

  lemma StepBack(n: int)
    ensures Ok(FromDays(n)) && FromDays(n - 1) == PreviousDay(FromDays(n))
  {
    hide ToDays, FromDays;
    ToFromDays(n);
    var p := PreviousDay(FromDays(n));
    PreviousThenNext(FromDays(n));
    NextDayNumber(p);
    FromToDays(p);
  }

  lemma EpochIsDayZero()
    ensures FromDays(0) == EPOCH
  {
    hide FromDays;
    FromDaysValue(4, 369, 10, 0);
    assert 4 * 146097 + MarchYear(369) + MarchMonth(10) + 0 - 719468 == 0;
  }

  /** The closed form agrees with walking the calendar day by day, in both directions. */
  lemma {:induction false} FromDaysIsWalk(n: int)
    ensures FromDays(n) == Walk(n)
    decreases if n < 0 then -n else n
  {
    hide FromDays;
    if n == 0 {
      EpochIsDayZero();
    } else if n > 0 {
      FromDaysIsWalk(n - 1);
      StepForward(n - 1);
    } else {
      FromDaysIsWalk(n + 1);
      StepBack(n + 1);
    }
  }
}
