/** When a table of rules in blocks is in time order. The sorts of `Rule::split_overlaps` compare months
    and days as written, "Sunday on or after the 1st" as the 1st, so this is a question of its own. */
module RuleOrder {
  import opened Calendar
  import opened CivilCalendar
  import opened Weekdays
  import opened MonthDay
  import opened Rules
  import opened RuleSplit

  const DAY := 86400

  /** The moment a rule names in a year, as written on the rule's own clock. */
  function Moment(at: MonthDayTime, y: int): int
    requires ValidOn(at.on)
  {
    ToSysDays(at.on, y) * DAY + at.seconds
  }

  /** Year `y` is a block of its own once the table is cut. */
  predicate Lone(s: seq<Rule>, y: int) {
    Bound(s, y) && Bound(s, y + 1)
  }

  lemma LoneBlock(s: seq<Rule>, r: Rule, y: int)
    requires Blocks(s) && r in s && InYears(r, y)
    ensures Lone(s, y) <==> r.start == y == r.end
  {
    if Lone(s, y) {
      var a :| a in s && BoundOf(a, y);
      var b :| b in s && BoundOf(b, y + 1);
      assert Apart(a, r) && Apart(b, r);
    }
    if r.start == y == r.end {
      assert BoundOf(r, y) && BoundOf(r, y + 1);
    }
  }

  /** A rule of `s` in force in year `y` has a counterpart in `t` with the same day. */
  lemma Counterpart(s: seq<Rule>, t: seq<Rule>, p: nat, y: int) returns (q: nat)
    requires p < |s| && InYears(s[p], y) && InForce(s, y) == InForce(t, y)
    ensures q < |t| && InYears(t[q], y) && BodyOf(t[q]) == BodyOf(s[p])
  {
    hide InForce;
    TakeOut(s, p, y);
    assert BodyOf(s[p]) in InForce([s[p]], y) by { OneInForce(s[p], y); }
    q := InForceMember(t, y, BodyOf(s[p]));
  }

  lemma OneInForce(r: Rule, y: int)
    requires InYears(r, y)
    ensures BodyOf(r) in InForce([r], y)
  {
  }

  /** The moment a rule of `s` names in a year after `split_overlaps`, which gives isolated years dates. */
  function Settled(s: seq<Rule>, at: MonthDayTime, y: int): int
    requires ValidOn(at.on)
  {
    if Lone(s, y) then
      CanonicalizeIsValid(at.on, y);
      Moment(at.(on := Canonicalize(at.on, y)), y)
    else Moment(at, y)
  }

  /** Month and day as written, in order. */
  predicate KeyLeq(x: MonthDayTime, y: MonthDayTime) {
    x.on.m < y.on.m || (x.on.m == y.on.m && DayOf(x.on) <= DayOf(y.on))
  }

  /** Months and days as written tell the order of the moments: within a year as they are sorted, and
      from one year to later ones. */
  ghost predicate KeysTell(s: seq<Rule>)
    requires ValidDays(s)
  {
    forall r, q, y, z ::
      r in s && q in s && InYears(r, y) && InYears(q, z) && (y < z || (y == z && KeyLeq(r.at, q.at))) ==>
      Settled(s, r.at, y) <= Settled(s, q.at, z)
  }

  /** Rules of a year that the sort cannot tell apart take effect at the same moment. */
  ghost predicate Untied(s: seq<Rule>)
    requires ValidDays(s)
  {
    forall r, q, y ::
      r in s && q in s && InYears(r, y) && InYears(q, y) && KeyLeq(r.at, q.at) && KeyLeq(q.at, r.at) ==>
      Settled(s, r.at, y) == Settled(s, q.at, y)
  }

  /** Year by year, and within a year in table order, moments never go back. */
  ghost predicate Chronological(t: seq<Rule>)
    requires ValidDays(t)
  {
    forall p, q, y, z ::
      0 <= p < |t| && 0 <= q < |t| && InYears(t[p], y) && InYears(t[q], z) && (y < z || (y == z && p < q)) ==>
      Moment(t[p].at, y) <= Moment(t[q].at, z)
  }

  // ----- Cutting keeps both conditions

  /** `t` says of every year what `s` says, and has the same bounds. */
  ghost predicate SameYears(s: seq<Rule>, t: seq<Rule>) {
    (forall y :: InForce(s, y) == InForce(t, y)) && (forall c :: Bound(s, c) <==> Bound(t, c))
  }

  lemma SettledKept(s: seq<Rule>, t: seq<Rule>, at: MonthDayTime, y: int)
    requires SameYears(s, t) && ValidOn(at.on)
    ensures Settled(s, at, y) == Settled(t, at, y)
  {
    hide InForce, Bound, Canonicalize, Moment;
  }

  lemma MemberCounterpart(s: seq<Rule>, t: seq<Rule>, r: Rule, y: int) returns (q: Rule)
    requires r in s && InYears(r, y) && SameYears(s, t)
    ensures q in t && InYears(q, y) && q.at == r.at
  {
    hide InForce, Bound;
    var p :| 0 <= p < |s| && s[p] == r;
    var o := Counterpart(s, t, p, y);
    q := t[o];
    assert q.at == BodyOf(q).at == BodyOf(r).at;
  }

  lemma KeysTellFrom(s: seq<Rule>, t: seq<Rule>)
    requires ValidDays(s) && ValidDays(t) && SameYears(s, t) && KeysTell(s)
    ensures KeysTell(t)
  {
    hide ValidOn, Settled, InForce, Bound, SameYears;
    assert SameYears(t, s) by { SameYearsSwap(s, t); }
    forall r, q, y, z | r in t && q in t && InYears(r, y) && InYears(q, z) && (y < z || (y == z && KeyLeq(r.at, q.at)))
      ensures Settled(t, r.at, y) <= Settled(t, q.at, z)
    {
      var r' := MemberCounterpart(t, s, r, y);
      var q' := MemberCounterpart(t, s, q, z);
      SettledKept(s, t, r.at, y);
      SettledKept(s, t, q.at, z);
    }
  }

  lemma UntiedFrom(s: seq<Rule>, t: seq<Rule>)
    requires ValidDays(s) && ValidDays(t) && SameYears(s, t) && Untied(s)
    ensures Untied(t)
  {
    hide ValidOn, Settled, InForce, Bound, SameYears;
    assert SameYears(t, s) by { SameYearsSwap(s, t); }
    forall r, q, y | r in t && q in t && InYears(r, y) && InYears(q, y) && KeyLeq(r.at, q.at) && KeyLeq(q.at, r.at)
      ensures Settled(t, r.at, y) == Settled(t, q.at, y)
    {
      var r' := MemberCounterpart(t, s, r, y);
      var q' := MemberCounterpart(t, s, q, y);
      SettledKept(s, t, r.at, y);
      SettledKept(s, t, q.at, y);
    }
  }

  lemma SameYearsSwap(s: seq<Rule>, t: seq<Rule>)
    requires SameYears(s, t)
    ensures SameYears(t, s)
  {
    hide InForce, Bound;
  }

  // ----- The table is in time order exactly when the keys tell

  lemma FinalMoment(cut: seq<Rule>, final: seq<Rule>, p: nat, y: int)
    requires ValidDays(cut) && ValidDays(final) && Blocks(cut) && Canonical(cut, final)
    requires p < |cut| && InYears(cut[p], y)
    ensures |final| == |cut| && InYears(final[p], y) && ValidOn(final[p].at.on) && ValidOn(cut[p].at.on)
    ensures Moment(final[p].at, y) == Settled(cut, cut[p].at, y)
  {
    hide ValidOn, Canonicalize, Moment, Blocks, Lone, CanonicalRule;
    assert cut[p] in cut && final[p] in final;
    LoneBlock(cut, cut[p], y);
    CanonicalRuleDef(cut[p]);
  }

  lemma SameYearKeys(s: seq<Rule>, p: nat, q: nat, y: int)
    requires Blocks(s) && InKeyOrder(s) && p < q < |s| && InYears(s[p], y) && InYears(s[q], y)
    ensures KeyLeq(s[p].at, s[q].at)
  {
    assert s[p] in s && s[q] in s;
    assert Apart(s[p], s[q]) && NotAfter(s[p], s[q]);
  }

  lemma KeysTellOrder(cut: seq<Rule>, final: seq<Rule>)
    requires ValidDays(cut) && ValidDays(final) && Blocks(cut) && InKeyOrder(cut) && Canonical(cut, final)
    requires KeysTell(cut)
    ensures Untied(cut) && Chronological(final)
  {
    hide ValidOn, Moment, Settled, Blocks, InKeyOrder, KeyLeq, Canonical;
    CanonicalIsValid(cut, final);
    forall p, q, y, z | 0 <= p < |final| && 0 <= q < |final| && InYears(final[p], y) && InYears(final[q], z)
                        && (y < z || (y == z && p < q))
      ensures Moment(final[p].at, y) <= Moment(final[q].at, z)
    {
      CanonicalLength(cut, final);
      assert SameRange(final[p], cut[p]) && SameRange(final[q], cut[q]) && cut[p] in cut && cut[q] in cut;
      FinalMoment(cut, final, p, y);
      FinalMoment(cut, final, q, z);
      if y == z { SameYearKeys(cut, p, q, y); }
    }
  }

  lemma OrderTellsKeys(cut: seq<Rule>, final: seq<Rule>)
    requires ValidDays(cut) && ValidDays(final) && Blocks(cut) && InKeyOrder(cut) && Canonical(cut, final)
    requires Untied(cut) && Chronological(final)
    ensures KeysTell(cut)
  {
    hide ValidOn, Moment, Settled, Blocks, InKeyOrder, KeyLeq, Canonical;
    forall r, q, y, z | r in cut && q in cut && InYears(r, y) && InYears(q, z) && (y < z || (y == z
      && KeyLeq(r.at, q.at)))
      ensures Settled(cut, r.at, y) <= Settled(cut, q.at, z)
    {
      var p :| 0 <= p < |cut| && cut[p] == r;
      var o :| 0 <= o < |cut| && cut[o] == q;
      FinalMoment(cut, final, p, y);
      FinalMoment(cut, final, o, z);
      if y == z && o < p { SameYearKeys(cut, o, p, y); }
    }
  }

  lemma CanonicalLength(s: seq<Rule>, t: seq<Rule>)
    requires ValidDays(s) && Canonical(s, t)
    ensures |s| == |t|
  {
  }

  /** What `split_overlaps` leaves of a table is in time order, and rules the sort cannot tell apart
      share their moments, exactly when months and days as written told the order of the moments before. */
  lemma TimeOrderIff(start: seq<Rule>, cut: seq<Rule>, final: seq<Rule>)
    requires ValidDays(start) && ValidDays(cut) && ValidDays(final) && SameYears(start, cut)
    requires Blocks(cut) && InKeyOrder(cut) && Canonical(cut, final)
    ensures KeysTell(start) <==> Untied(start) && Chronological(final)
  {
    hide ValidDays, SameYears, Blocks, InKeyOrder, Canonical, KeysTell, Untied, Chronological;
    SameYearsSwap(start, cut);
    if KeysTell(start) {
      KeysTellFrom(start, cut);
      KeysTellOrder(cut, final);
      UntiedFrom(cut, start);
    }
    if Untied(start) && Chronological(final) {
      UntiedFrom(start, cut);
      OrderTellsKeys(cut, final);
      KeysTellFrom(cut, start);
    }
  }

  /** Rules the sort cannot tell apart may stand either way round, and if their moments differ one
      of the two ways goes back in time. */
  lemma TieGoesEitherWay(s: seq<Rule>, p: nat, q: nat, y: int)
    requires ValidDays(s) && Blocks(s) && InKeyOrder(s) && p < q < |s| && InYears(s[p], y) && InYears(s[q], y)
    requires KeyLeq(s[q].at, s[p].at) && ValidOn(s[p].at.on) && ValidOn(s[q].at.on)
    requires Moment(s[p].at, y) != Moment(s[q].at, y)
    ensures var t := s[p := s[q]][q := s[p]];
      && multiset(t) == multiset(s) && ValidDays(t) && Blocks(t) && InKeyOrder(t)
      && !(Chronological(s) && Chronological(t))
  {
    hide ValidOn, Moment;
    var t := s[p := s[q]][q := s[p]];
    assert s[p] in s && s[q] in s;
    assert Apart(s[p], s[q]);
    SameYearKeys(s, p, q, y);
    forall i, j | 0 <= i < j < |t|
      ensures NotAfter(t[i], t[j])
    {
      assert NotAfter(s[i], s[j]);
    }
    assert forall r :: r in t ==> r in s;
    assert InYears(t[p], y) && InYears(t[q], y);
  }

  // ----- A condition that can be read off the rules

  /** The day lies in its month in every year, and the time of day on that day or at its end. */
  predicate KeepsToMonth(at: MonthDayTime)
    requires ValidOn(at.on)
  {
    && 0 <= at.seconds <= DAY
    && match at.on
       case Fixed(m, d) => d <= LastDay(1, m)
       case Last(m, wd) => true
       case OnOrBefore(m, d, wd) => 7 <= d <= LastDay(1, m)
       case OnOrAfter(m, d, wd) => d + 6 <= LastDay(1, m)
  }

  lemma DayInMonth(at: MonthDayTime, y: int)
    requires ValidOn(at.on) && KeepsToMonth(at)
    ensures var x := FromDays(ToSysDays(at.on, y)); x.y == y && x.m == at.on.m
  {
    hide ToDays, FromDays, Weekday, WeekdayDiff, LastWeekdayToDays;
    var m, n := at.on.m, ToSysDays(at.on, y);
    assert LastDay(1, m) <= LastDay(y, m);
    InMonth(n, y, m);
    match at.on
    case Fixed(_, d) => DayShift(y, m, d);
    case Last(_, wd) => LastWeekdayIsLatest(y, m, wd);
    case OnOrBefore(_, d, wd) => OnOrBeforeIsUnique(m, d, wd, y, n); DayShift(y, m, d);
    case OnOrAfter(_, d, wd) => OnOrAfterIsUnique(m, d, wd, y, n); DayShift(y, m, d);
  }

  /** Such days are not moved. */
  lemma SettledIsMoment(s: seq<Rule>, at: MonthDayTime, y: int)
    requires ValidOn(at.on) && KeepsToMonth(at)
    ensures Settled(s, at, y) == Moment(at, y)
  {
    hide ToSysDays, FromDays, KeepsToMonth, ValidOn, Lone, Canonicalize;
    DayInMonth(at, y);
    CanonicalizeKeepsDay(at.on, y);
  }

  /** Earlier months have earlier moments. */
  lemma MonthsInOrder(a: MonthDayTime, y: int, b: MonthDayTime, z: int)
    requires ValidOn(a.on) && KeepsToMonth(a) && ValidOn(b.on) && KeepsToMonth(b)
    requires y < z || (y == z && a.on.m < b.on.m)
    ensures Moment(a, y) <= Moment(b, z)
  {
    hide ToSysDays, FromDays, ToDays, ValidOn;
    var m, n := ToSysDays(a.on, y), ToSysDays(b.on, z);
    DayInMonth(a, y);
    DayInMonth(b, z);
    ToFromDays(m);
    ToFromDays(n);
    OrderIsDayOrder(FromDays(m), FromDays(n));
    assert m + 1 <= n;
  }

  /** Days of the month on which a rule can fall. */
  function Earliest(on: On): int {
    match on
    case Fixed(_, d) => d
    case Last(_, _) => 22
    case OnOrBefore(_, d, _) => d - 6
    case OnOrAfter(_, d, _) => d
  }

  function Latest(on: On): int {
    match on
    case Fixed(_, d) => d
    case Last(_, _) => 31
    case OnOrBefore(_, d, _) => d
    case OnOrAfter(_, d, _) => d + 6
  }

  lemma DayWithin(at: MonthDayTime, y: int)
    requires ValidOn(at.on) && KeepsToMonth(at)
    ensures var x := FromDays(ToSysDays(at.on, y));
      x.y == y && x.m == at.on.m && Earliest(at.on) <= x.d <= Latest(at.on)
  {
    hide ToDays, FromDays, Weekday, WeekdayDiff, LastWeekdayToDays;
    var m, n := at.on.m, ToSysDays(at.on, y);
    DayInMonth(at, y);
    InMonth(n, y, m);
    match at.on
    case Fixed(_, d) => DayShift(y, m, d);
    case Last(_, wd) => LastSevenDays(y, m, wd);
    case OnOrBefore(_, d, wd) => OnOrBeforeIsUnique(m, d, wd, y, n); DayShift(y, m, d);
    case OnOrAfter(_, d, wd) => OnOrAfterIsUnique(m, d, wd, y, n); DayShift(y, m, d);
  }

  /** The last such weekday of a month is one of its last seven days, so the 22nd or later. */
  lemma LastSevenDays(y: int, m: int, wd: int)
    requires 1 <= m <= 12 && 0 <= wd <= 6
    ensures var n := LastWeekdayToDays(y, m, wd);
      LastDay(y, m) - 7 <= n - MonthFirst(y, m) < LastDay(y, m) && 22 <= FromDays(n).d <= 31
  {
    hide ToDays, FromDays, Weekday, LastWeekdayToDays, MonthFirst, LastDay;
    var n := LastWeekdayToDays(y, m, wd);
    LastWeekdayIsLatest(y, m, wd);
    InMonth(n, y, m);
    LastDayRange(y, m);
    WeekdayPlusDays(n, 7);
    WeekLater(n);
    if n - MonthFirst(y, m) < LastDay(y, m) - 7 { InMonth(n + 7, y, m); }
  }

  lemma WeekLater(n: int)
    ensures Weekday(n + 7) == Weekday(n)
  {
    hide Weekday;
    WeekdayValue(n);
    WeekdayValue(n + 7);
  }

  /** Earlier days of a month, all of them, have earlier moments. */
  lemma DaysInOrder(a: MonthDayTime, b: MonthDayTime, y: int)
    requires ValidOn(a.on) && KeepsToMonth(a) && ValidOn(b.on) && KeepsToMonth(b)
    requires a.on.m == b.on.m && Latest(a.on) < Earliest(b.on)
    ensures Moment(a, y) <= Moment(b, y)
  {
    hide ToSysDays, FromDays, ToDays, ValidOn, Earliest, Latest;
    var m, n := ToSysDays(a.on, y), ToSysDays(b.on, y);
    DayWithin(a, y);
    DayWithin(b, y);
    ToFromDays(m);
    ToFromDays(n);
    OrderIsDayOrder(FromDays(m), FromDays(n));
    assert m + 1 <= n;
  }

  /** Different rules of a year fall in different months, or on days of a month that cannot cross. */
  predicate DaysApart(s: seq<Rule>) {
    forall r, q :: r in s && q in s && r.start <= q.end && q.start <= r.end && r.at.on.m == q.at.on.m ==>
      r.at == q.at || Latest(r.at.on) < Earliest(q.at.on) || Latest(q.at.on) < Earliest(r.at.on)
  }

  /** The sort puts days that cannot cross in their order. */
  lemma KeyWithin(a: MonthDayTime, b: MonthDayTime)
    requires ValidOn(a.on) && ValidOn(b.on) && a.on.m == b.on.m && Latest(a.on) < Earliest(b.on)
    ensures KeyLeq(a, b) && !KeyLeq(b, a)
  {
  }

  /** Then the table is in time order. */
  lemma DaysApartTell(s: seq<Rule>)
    requires ValidDays(s) && DaysApart(s) && forall r :: r in s ==> KeepsToMonth(r.at)
    ensures KeysTell(s)
  {
    hide ValidOn, KeepsToMonth, Moment, Settled, Earliest, Latest, KeyLeq;
    forall r, q, y, z | r in s && q in s && InYears(r, y) && InYears(q, z) && (y < z || (y == z && KeyLeq(r.at, q.at)))
      ensures Settled(s, r.at, y) <= Settled(s, q.at, z)
    {
      SettledIsMoment(s, r.at, y);
      SettledIsMoment(s, q.at, z);
      if y < z || r.at.on.m < q.at.on.m {
        MonthsInOrder(r.at, y, q.at, z);
      } else if r.at != q.at {
        assert r.at.on.m == q.at.on.m by { KeyMonths(r.at, q.at); }
        if Latest(q.at.on) < Earliest(r.at.on) { KeyWithin(q.at, r.at); }
        DaysInOrder(r.at, q.at, y);
      }
    }
  }

  lemma KeyMonths(a: MonthDayTime, b: MonthDayTime)
    requires KeyLeq(a, b)
    ensures a.on.m <= b.on.m
  {
  }

  // ----- Where the sort puts rules of the same years, told by calendar days

  /** By the dates they are written with, unless one is a last weekday of the month. */
  lemma SortsByDate(r: Rule, q: Rule, y: int)
    requires SameRange(r, q) && !r.at.on.Last? && !q.at.on.Last?
    requires Ok(Date(y, r.at.on.m, r.at.on.d)) && Ok(Date(y, q.at.on.m, q.at.on.d))
    ensures Less(r, q) <==> ToSysDays(Fixed(r.at.on.m, r.at.on.d), y) < ToSysDays(Fixed(q.at.on.m, q.at.on.d), y)
  {
    hide ToDays;
    OrderIsDayOrder(Date(y, r.at.on.m, r.at.on.d), Date(y, q.at.on.m, q.at.on.d));
  }

  /** Last weekdays come at the end of their month: nothing of the same month sorts after one, and
      everything but the 31st and other last weekdays sorts before it. */
  lemma LastSortsLast(r: Rule, q: Rule)
    requires SameRange(r, q) && r.at.on.m == q.at.on.m && ValidOn(r.at.on) && ValidOn(q.at.on) && r.at.on.Last?
    ensures !Less(r, q)
    ensures Less(q, r) <==> !q.at.on.Last? && q.at.on.d < 31
  {
  }

  /** So far as the days can tell, this is their order in every year. */
  lemma LastFallsLast(m: int, d: int, wd: int, y: int)
    requires ValidOn(Fixed(m, d)) && ValidOn(Last(m, wd)) && d <= 22
    ensures ToSysDays(Fixed(m, d), y) <= ToSysDays(Last(m, wd), y)
  {
    hide ToDays, FromDays, LastWeekdayToDays;
    LastSevenDays(y, m, wd);
    LastDayRange(y, m);
    DayShift(y, m, d);
  }

  /** In a sorted table in blocks, a last weekday of a month stands behind the earlier days of that month. */
  lemma LastStandsLast(s: seq<Rule>, p: nat, q: nat, y: int)
    requires Blocks(s) && Sorted(s) && ValidDays(s) && p < |s| && q < |s| && InYears(s[p], y) && InYears(s[q], y)
    requires s[p].at.on.m == s[q].at.on.m && s[p].at.on.Last? && s[q].at.on.Fixed? && s[q].at.on.d <= 22
    ensures q < p && Moment(s[q].at, y) - s[q].at.seconds <= Moment(s[p].at, y) - s[p].at.seconds
  {
    hide ToSysDays;
    assert s[p] in s && s[q] in s;
    assert Apart(s[p], s[q]);
    LastSortsLast(s[p], s[q]);
    LastFallsLast(s[p].at.on.m, s[q].at.on.d, s[p].at.on.wd, y);
  }
}
