/** POSIX time zones of ptz.h: a standard offset, a saving, and the two rules by which daylight
    saving starts and ends in each year. Times are whole seconds since 1970-01-01, either UTC
    ("sys") or on the zone's own clock ("local"). */
module PosixZone {
  import opened Calendar
  import opened CivilCalendar
  import opened Weekdays
  import opened IsoWeek

  const DAY := 86400

  /** `detail::rule`: day of the year without 29 February (`J`), weekday of a month (`M`), or
      zero-based day of the year (`N`), each at a local time of day. */
  datatype ZoneRule =
    | Off
    | Julian(n: int, time: int)
    | MonthRule(m: int, wd: int, n: int, time: int)
    | ZeroBased(n: int, time: int)

  datatype Zone = Zone(stdAbbrev: string, dstAbbrev: string, offset: int, save: int, start: ZoneRule, end: ZoneRule)

  predicate RuleOk(r: ZoneRule) {
    !r.Off? && (r.MonthRule? ==> 1 <= r.m <= 12)
  }

  predicate HasRules(z: Zone) {
    RuleOk(z.start) && RuleOk(z.end)
  }

  /** `rule::operator()`: the local time at which a rule applies in year `y`. */
  function RuleAt(r: ZoneRule, y: int): int
    requires RuleOk(r)
  {
    match r
    case Julian(n, time) => (ToDays(Date(y, 1, 0)) + n + (if IsLeap(y) && n > 59 then 1 else 0)) * DAY + time
    case MonthRule(m, wd, n, time) =>
      (if n == 5 then LastWeekdayToDays(y, m, wd) else MonthWeekdayToDays(MonthWeekday(y, m, wd, n))) * DAY + time
    case ZeroBased(n, time) => (ToDays(Date(y, 1, 1)) + n) * DAY + time
  }

  /** UTC times at which daylight saving starts and ends in year `y`. */
  function Start(z: Zone, y: int): int
    requires HasRules(z)
  {
    RuleAt(z.start, y) - z.offset
  }

  function End(z: Zone, y: int): int
    requires HasRules(z)
  {
    RuleAt(z.end, y) - (z.offset + z.save)
  }

  datatype SysInfo = SysInfo(begin: int, end: int, offset: int, save: int, abbrev: string)

  datatype Result = Unique | Nonexistent | Ambiguous

  datatype LocalInfo = LocalInfo(result: Result, first: SysInfo, second: SysInfo)

  const NO_INFO := SysInfo(0, 0, 0, 0, "")

  function YearOf(t: int): int {
    FromDays(t / DAY).y
  }

  /** `ceil<minutes>`. */
  function CeilMinutes(s: int): int {
    -((-s) / 60)
  }

  function StdInfo(z: Zone, begin: int, end: int): SysInfo {
    SysInfo(begin, end, z.offset, 0, z.stdAbbrev)
  }

  function DstInfo(z: Zone, begin: int, end: int): SysInfo {
    SysInfo(begin, end, z.offset + z.save, CeilMinutes(z.save), z.dstAbbrev)
  }

  /** `time_zone::get_info` of a UTC time, for a zone with rules. */
  function GetInfo(z: Zone, t: int): SysInfo
    requires HasRules(z)
  {
    var y := YearOf(t);
    var start, end := Start(z, y), End(z, y);
    if start <= t < end then DstInfo(z, start, end)
    else if t < start then StdInfo(z, End(z, y - 1), start)
    else StdInfo(z, end, Start(z, y + 1))
  }

  /** `time_zone::get_info` of a local time, for a zone with rules. */
  function GetLocalInfo(z: Zone, tp: int): LocalInfo
    requires HasRules(z)
  {
    var y := YearOf(tp);
    var start, end := Start(z, y), End(z, y);
    var utcs, utcd := tp - z.offset, tp - (z.offset + z.save);
    if (utcs < start) != (utcd < start) then
      LocalInfo(if z.save > 0 then Nonexistent else Ambiguous,
                StdInfo(z, End(z, y - 1), start), DstInfo(z, start, end))
    else if (utcs < end) != (utcd < end) then
      LocalInfo(if z.save > 0 then Ambiguous else Nonexistent,
                DstInfo(z, start, end), StdInfo(z, end, Start(z, y + 1)))
    else if utcs < start then LocalInfo(Unique, StdInfo(z, End(z, y - 1), start), NO_INFO)
    else if utcs < end then LocalInfo(Unique, DstInfo(z, start, end), NO_INFO)
    else LocalInfo(Unique, StdInfo(z, end, Start(z, y + 1)), NO_INFO)
  }

  datatype Choose = Earliest | Latest

  datatype Outcome = Time(t: int) | NonexistentLocalTime | AmbiguousLocalTime

  /** `time_zone::to_sys`, which throws for times that are not unique. */
  function ToSys(z: Zone, tp: int): Outcome
    requires HasRules(z)
  {
    var i := GetLocalInfo(z, tp);
    if i.result == Nonexistent then NonexistentLocalTime
    else if i.result == Ambiguous then AmbiguousLocalTime
    else Time(tp - i.first.offset)
  }

  /** `time_zone::to_sys` with a choice. */
  function ToSysChoosing(z: Zone, tp: int, c: Choose): int
    requires HasRules(z)
  {
    var i := GetLocalInfo(z, tp);
    if i.result == Nonexistent then i.first.end
    else if i.result == Ambiguous && c == Latest then tp - i.second.offset
    else tp - i.first.offset
  }

  /** `time_zone::to_local`. */
  function ToLocal(z: Zone, t: int): int
    requires HasRules(z)
  {
    t + GetInfo(z, t).offset
  }

  // ----- Zones the code is meant for

  /** First second of a year. */
  function YearStart(y: int): int {
    YearFirst(y) * DAY
  }

  /** Transitions lie in the UTC year they belong to. */
  ghost predicate UtcClear(z: Zone)
    requires HasRules(z)
  {
    forall y :: YearStart(y) <= Start(z, y) < YearStart(y + 1) && YearStart(y) <= End(z, y) <= YearStart(y + 1)
  }

  /** Both local readings of each transition, on standard and on daylight time, lie in its year. */
  ghost predicate LocalClear(z: Zone)
    requires HasRules(z)
  {
    forall y ::
      && YearStart(y) <= RuleAt(z.start, y) <= YearStart(y + 1)
      && YearStart(y) <= RuleAt(z.start, y) + z.save <= YearStart(y + 1)
      && YearStart(y) <= RuleAt(z.end, y) <= YearStart(y + 1)
      && YearStart(y) <= RuleAt(z.end, y) - z.save <= YearStart(y + 1)
  }

  /** Daylight saving starts before it ends. */
  ghost predicate StartsFirst(z: Zone)
    requires HasRules(z)
  {
    forall y :: Start(z, y) <= End(z, y)
  }

  /** ... and lasts at least as long as the clock is moved. */
  ghost predicate LastsLongEnough(z: Zone)
    requires HasRules(z)
  {
    forall y :: End(z, y) - Start(z, y) >= if z.save >= 0 then z.save else -z.save
  }

  lemma YearOfIs(t: int, y: int)
    ensures YearOf(t) == y <==> YearStart(y) <= t < YearStart(y + 1)
  {
    hide FromDays, YearFirst;
    InYear(t / DAY, y);
    assert t == t / DAY * DAY + t % DAY;
  }

  lemma YearStartGrows(y: int, z: int)
    requires y <= z
    ensures YearStart(y) <= YearStart(z)
  {
    hide YearFirst;
    YearFirstGrows(y, z);
  }

  // ----- The intervals tile the time line

  /** What the year's transitions say of a UTC time. */
  lemma InfoOf(z: Zone, t: int, y: int)
    requires HasRules(z) && YearStart(y) <= t < YearStart(y + 1)
    ensures GetInfo(z, t) ==
      if Start(z, y) <= t < End(z, y) then DstInfo(z, Start(z, y), End(z, y))
      else if t < Start(z, y) then StdInfo(z, End(z, y - 1), Start(z, y))
      else StdInfo(z, End(z, y), Start(z, y + 1))
  {
    hide YearOf, RuleAt, YearStart;
    YearOfIs(t, y);
  }

  /** Times between one transition and the next have that interval as their information. */
  lemma DstInterval(z: Zone, y: int, t: int)
    requires HasRules(z) && UtcClear(z) && Start(z, y) <= t < End(z, y)
    ensures GetInfo(z, t) == DstInfo(z, Start(z, y), End(z, y))
    ensures var i := GetInfo(z, t);
      i.offset == z.offset + z.save && i.abbrev == z.dstAbbrev && 60 * (i.save - 1) < z.save <= 60 * i.save
  {
    hide RuleAt, YearStart, GetInfo, Start, End;
    InfoOf(z, t, y);
  }

  lemma StdInterval(z: Zone, y: int, t: int)
    requires HasRules(z) && UtcClear(z) && StartsFirst(z) && End(z, y) <= t < Start(z, y + 1)
    ensures GetInfo(z, t) == StdInfo(z, End(z, y), Start(z, y + 1))
    ensures var i := GetInfo(z, t); i.offset == z.offset && i.abbrev == z.stdAbbrev && i.save == 0
  {
    hide RuleAt, YearStart, GetInfo, DstInfo;
    if t < YearStart(y + 1) {
      InfoOf(z, t, y);
    } else {
      assert y + 1 + 1 == y + 2 && y + 1 - 1 == y;
      InfoOf(z, t, y + 1);
    }
  }

  /** Every time lies between two transitions. */
  lemma SomeInterval(z: Zone, t: int) returns (y: int, dst: bool)
    requires HasRules(z) && UtcClear(z) && StartsFirst(z)
    ensures if dst then Start(z, y) <= t < End(z, y) else End(z, y) <= t < Start(z, y + 1)
  {
    hide RuleAt, YearStart;
    y := YearOf(t);
    YearOfIs(t, y);
    dst := Start(z, y) <= t < End(z, y);
    if t < Start(z, y) {
      y := y - 1;
    }
  }

  /** The three tiling laws at one time. */
  ghost predicate Tiles(z: Zone, t: int)
    requires HasRules(z)
  {
    var i := GetInfo(z, t);
    && i.begin <= t < i.end
    && (forall u :: i.begin <= u < i.end ==> GetInfo(z, u) == i)
    && GetInfo(z, i.end).begin == i.end
  }

  lemma TilesHere(z: Zone, t: int)
    requires HasRules(z) && UtcClear(z) && StartsFirst(z)
    ensures Tiles(z, t)
  {
    hide RuleAt, YearStart, GetInfo;
    var y, dst := SomeInterval(z, t);
    var e := if dst then End(z, y) else Start(z, y + 1);
    if dst {
      DstInterval(z, y, t);
      forall u | Start(z, y) <= u < End(z, y)
        ensures GetInfo(z, u) == GetInfo(z, t)
      {
        DstInterval(z, y, u);
      }
      BeginsAt(z, y, e);
    } else {
      StdInterval(z, y, t);
      forall u | End(z, y) <= u < Start(z, y + 1)
        ensures GetInfo(z, u) == GetInfo(z, t)
      {
        StdInterval(z, y, u);
      }
      BeginsAt(z, y, e);
    }
  }

  /** The information at a transition begins there. */
  lemma BeginsAt(z: Zone, y: int, e: int)
    requires HasRules(z) && UtcClear(z) && StartsFirst(z) && (e == End(z, y) || e == Start(z, y + 1))
    ensures GetInfo(z, e).begin == e
  {
    hide RuleAt, YearStart, GetInfo;
    var x, dst := SomeInterval(z, e);
    if dst { DstInterval(z, x, e); } else { StdInterval(z, x, e); }
    Between(z, x, y);
  }

  /** Transitions of different years do not interleave. */
  lemma Between(z: Zone, x: int, y: int)
    requires HasRules(z) && UtcClear(z) && StartsFirst(z)
    ensures x < y ==> End(z, x) <= Start(z, y) && Start(z, x + 1) <= Start(z, y)
    ensures y < x ==> End(z, y) <= Start(z, x) && Start(z, y + 1) <= Start(z, x)
  {
    hide RuleAt, YearStart;
    if x < y { YearStartGrows(x + 1, y); if x + 1 < y { YearStartGrows(x + 2, y); } }
    if y < x { YearStartGrows(y + 1, x); if y + 1 < x { YearStartGrows(y + 2, x); } }
  }

  /** The intervals returned for UTC times tile the time line exactly when daylight saving starts
      before it ends in every year; zones with a summer across New Year do not meet this. */
  lemma TilingIff(z: Zone)
    requires HasRules(z) && UtcClear(z)
    ensures (forall t :: Tiles(z, t)) <==> StartsFirst(z)
  {
    hide RuleAt, YearStart, GetInfo, Tiles;
    if StartsFirst(z) {
      forall t
        ensures Tiles(z, t)
      {
        TilesHere(z, t);
      }
    } else {
      var y :| Start(z, y) > End(z, y);
      DoesNotTile(z, y);
    }
  }

  lemma DoesNotTile(z: Zone, y: int)
    requires HasRules(z) && UtcClear(z) && Start(z, y) > End(z, y)
    ensures !Tiles(z, End(z, y))
  {
    hide RuleAt, YearStart, GetInfo;
    InfoOf(z, End(z, y), y);
    InfoOf(z, Start(z, y), y);
  }

  // ----- Local times

  /** Daylight saving is in force. */
  predicate IsDst(z: Zone, t: int)
    requires HasRules(z)
  {
    Start(z, YearOf(t)) <= t < End(z, YearOf(t))
  }

  lemma OffsetOf(z: Zone, t: int)
    requires HasRules(z)
    ensures GetInfo(z, t).offset == z.offset + if IsDst(z, t) then z.save else 0
  {
    hide RuleAt, YearOf;
  }

  /** Within a stretch free of the transitions of other years, only those of `y` count. */
  lemma DstByYear(z: Zone, t: int, y: int)
    requires HasRules(z) && UtcClear(z) && StartsFirst(z)
    requires End(z, y - 1) <= t < Start(z, y + 1)
    ensures IsDst(z, t) <==> Start(z, y) <= t < End(z, y)
  {
    hide RuleAt, YearStart, YearOf;
    var x := YearOf(t);
    YearOfIs(t, x);
    if x < y {
      Between(z, x, y);
      if x + 1 < y { YearStartGrows(x + 1, y - 1); }
    } else if y < x {
      Between(z, y, x);
      if y + 1 < x { YearStartGrows(y + 2, x); }
    }
  }

  /** The two readings of a local time fall where only the transitions of its own year count. */
  lemma ReadingsInYear(z: Zone, tp: int, y: int)
    requires HasRules(z) && LocalClear(z) && YearStart(y) <= tp < YearStart(y + 1)
    ensures var utcs, utcd := tp - z.offset, tp - (z.offset + z.save);
      && End(z, y - 1) <= utcs < Start(z, y + 1)
      && End(z, y - 1) <= utcd < Start(z, y + 1)
  {
    hide RuleAt, YearStart;
    assert y - 1 + 1 == y;
  }

  ghost predicate ReadsAs(z: Zone, t: int, tp: int)
    requires HasRules(z)
  {
    ToLocal(z, t) == tp
  }

  /** An instant reads as `tp` only by the standard or by the daylight offset. */
  lemma ReadsAsIff(z: Zone, t: int, tp: int)
    requires HasRules(z)
    ensures ReadsAs(z, t, tp) <==>
      (t == tp - z.offset && !IsDst(z, t)) || (t == tp - (z.offset + z.save) && IsDst(z, t))
  {
    hide GetInfo, IsDst;
    OffsetOf(z, t);
  }

  ghost predicate NoInstant(z: Zone, tp: int)
    requires HasRules(z)
  {
    forall t :: !ReadsAs(z, t, tp)
  }

  ghost predicate OneInstant(z: Zone, tp: int)
    requires HasRules(z)
  {
    exists t :: ReadsAs(z, t, tp) && forall u :: ReadsAs(z, u, tp) ==> u == t
  }

  ghost predicate TwoInstants(z: Zone, tp: int)
    requires HasRules(z)
  {
    exists t, u :: t < u && ReadsAs(z, t, tp) && ReadsAs(z, u, tp) && forall v :: ReadsAs(z, v, tp) ==> v == t || v == u
  }

  /** The answer counts the instants that read as `tp`. */
  ghost predicate Counts(z: Zone, tp: int)
    requires HasRules(z)
  {
    match GetLocalInfo(z, tp).result
    case Nonexistent => NoInstant(z, tp)
    case Unique => OneInstant(z, tp)
    case Ambiguous => TwoInstants(z, tp)
  }

  /** Instants by the two readings. */
  lemma InstantsByReading(z: Zone, tp: int, std: bool, dst: bool)
    requires HasRules(z)
    requires std == !IsDst(z, tp - z.offset) && dst == IsDst(z, tp - (z.offset + z.save))
    ensures !std && !dst ==> NoInstant(z, tp)
    ensures std && !dst ==> OneInstant(z, tp)
    ensures !std && dst ==> OneInstant(z, tp)
    ensures std && dst ==> TwoInstants(z, tp) && z.save != 0
  {
    hide IsDst, ToLocal, ReadsAs;
    var utcs, utcd := tp - z.offset, tp - (z.offset + z.save);
    forall t
      ensures ReadsAs(z, t, tp) <==> (t == utcs && std) || (t == utcd && dst)
    {
      ReadsAsIff(z, t, tp);
    }
    if std && dst {
      assert utcs != utcd;
      var lo, hi := if utcs < utcd then utcs else utcd, if utcs < utcd then utcd else utcs;
      assert lo < hi && ReadsAs(z, lo, tp) && ReadsAs(z, hi, tp);
    } else if std {
      assert ReadsAs(z, utcs, tp);
    } else if dst {
      assert ReadsAs(z, utcd, tp);
    }
  }

  lemma CountsAreExclusive(z: Zone, tp: int)
    requires HasRules(z)
    ensures !(NoInstant(z, tp) && OneInstant(z, tp)) && !(OneInstant(z, tp) && TwoInstants(z, tp))
    ensures !(NoInstant(z, tp) && TwoInstants(z, tp))
  {
    hide ReadsAs;
  }

  lemma CountsHere(z: Zone, tp: int)
    requires HasRules(z) && UtcClear(z) && LocalClear(z) && StartsFirst(z)
    ensures var y := YearOf(tp);
      End(z, y) - Start(z, y) >= (if z.save >= 0 then z.save else -z.save) ==> Counts(z, tp)
  {
    hide RuleAt, YearStart, YearOf, IsDst, NoInstant, OneInstant, TwoInstants;
    var y := YearOf(tp);
    YearOfIs(tp, y);
    ReadingsInYear(z, tp, y);
    var utcs, utcd := tp - z.offset, tp - (z.offset + z.save);
    DstByYear(z, utcs, y);
    DstByYear(z, utcd, y);
    InstantsByReading(z, tp, !IsDst(z, utcs), IsDst(z, utcd));
  }

  /** If a year's daylight saving is shorter than the clock change, a local time is misjudged. */
  lemma TooShortMiscounts(z: Zone, y: int) returns (tp: int)
    requires HasRules(z) && UtcClear(z) && LocalClear(z) && StartsFirst(z)
    requires End(z, y) - Start(z, y) < if z.save >= 0 then z.save else -z.save
    ensures !Counts(z, tp)
  {
    hide RuleAt, YearStart, YearOf, IsDst, NoInstant, OneInstant, TwoInstants;
    tp := if z.save > 0 then End(z, y) + z.offset else Start(z, y) - 1 + z.offset;
    YearOfIs(tp, y);
    assert YearStart(y) <= tp < YearStart(y + 1);
    ReadingsInYear(z, tp, y);
    var utcs, utcd := tp - z.offset, tp - (z.offset + z.save);
    DstByYear(z, utcs, y);
    DstByYear(z, utcd, y);
    InstantsByReading(z, tp, !IsDst(z, utcs), IsDst(z, utcd));
    CountsAreExclusive(z, tp);
  }

  /** If daylight saving ends before it starts, the time at which it should start is misjudged. */
  lemma LostSummerMiscounts(z: Zone, y: int) returns (tp: int)
    requires HasRules(z) && UtcClear(z) && LocalClear(z) && End(z, y) < Start(z, y) && z.save != 0
    ensures !Counts(z, tp)
  {
    hide RuleAt, YearStart, YearOf, NoInstant, OneInstant, TwoInstants;
    tp := if z.save > 0 then RuleAt(z.start, y) else RuleAt(z.start, y) + z.save;
    YearOfIs(tp, y);
    YearOfIs(Start(z, y), y);
    assert !IsDst(z, Start(z, y));
    InstantsByReading(z, tp, !IsDst(z, tp - z.offset), IsDst(z, tp - (z.offset + z.save)));
    CountsAreExclusive(z, tp);
  }

  /** Without a clock change every local time is unique, whatever the rules. */
  lemma NoSavingCounts(z: Zone, tp: int)
    requires HasRules(z) && z.save == 0
    ensures Counts(z, tp)
  {
    hide RuleAt, YearOf, NoInstant, OneInstant, TwoInstants, IsDst;
    InstantsByReading(z, tp, !IsDst(z, tp - z.offset), IsDst(z, tp - (z.offset + z.save)));
  }

  /** For zones whose transitions keep clear of year boundaries, the classification of local times
      is right for all of them exactly when the clock is not moved at all, or daylight saving always
      lasts at least as long as the clock is moved, forwards or backwards. */
  lemma ClassificationIff(z: Zone)
    requires HasRules(z) && UtcClear(z) && LocalClear(z)
    ensures (forall tp :: Counts(z, tp)) <==> z.save == 0 || LastsLongEnough(z)
  {
    hide Start, End, Counts, UtcClear, LocalClear, YearOf;
    if z.save == 0 {
      forall tp
        ensures Counts(z, tp)
      {
        NoSavingCounts(z, tp);
      }
    } else if LastsLongEnough(z) {
      forall tp
        ensures Counts(z, tp)
      {
        CountsHere(z, tp);
      }
    } else if StartsFirst(z) {
      var y :| End(z, y) - Start(z, y) < if z.save >= 0 then z.save else -z.save;
      var tp := TooShortMiscounts(z, y);
    } else {
      var y :| End(z, y) < Start(z, y);
      var tp := LostSummerMiscounts(z, y);
    }
  }

  // ----- From UTC to local and back

  /** The information given for a local time is that of the instants it stands for, and a gap
      lies at the transition between the two. */
  lemma LocalInfoIsSysInfo(z: Zone, tp: int)
    requires HasRules(z) && UtcClear(z) && LocalClear(z) && StartsFirst(z) && LastsLongEnough(z)
    ensures var i := GetLocalInfo(z, tp);
      && (i.result != Nonexistent ==> GetInfo(z, tp - i.first.offset) == i.first)
      && (i.result == Ambiguous ==>
          GetInfo(z, tp - i.second.offset) == i.second && tp - i.first.offset < tp - i.second.offset)
      && (i.result == Nonexistent ==>
          i.first.end == i.second.begin && tp - i.second.offset < i.first.end <= tp - i.first.offset)
      && (i.result == Nonexistent ==>
          GetInfo(z, i.first.end - 1) == i.first && GetInfo(z, i.second.begin) == i.second)
      && (i.result == Unique ==> i.second == SysInfo(0, 0, 0, 0, ""))
  {
    hide RuleAt, YearStart, YearOf, GetInfo, GetLocalInfo;
    var y := YearOf(tp);
    YearOfIs(tp, y);
    ReadingsInYear(z, tp, y);
    LocalInfoInYear(z, tp, y);
  }

  lemma LocalInfoInYear(z: Zone, tp: int, y: int)
    requires HasRules(z) && UtcClear(z) && StartsFirst(z) && y == YearOf(tp)
    requires End(z, y) - Start(z, y) >= if z.save >= 0 then z.save else -z.save
    requires var utcs, utcd := tp - z.offset, tp - (z.offset + z.save);
      End(z, y - 1) <= utcs < Start(z, y + 1) && End(z, y - 1) <= utcd < Start(z, y + 1)
    ensures var i := GetLocalInfo(z, tp);
      && (i.result != Nonexistent ==> GetInfo(z, tp - i.first.offset) == i.first)
      && (i.result == Ambiguous ==>
          GetInfo(z, tp - i.second.offset) == i.second && tp - i.first.offset < tp - i.second.offset)
      && (i.result == Nonexistent ==>
          i.first.end == i.second.begin && tp - i.second.offset < i.first.end <= tp - i.first.offset)
      && (i.result == Nonexistent ==>
          GetInfo(z, i.first.end - 1) == i.first && GetInfo(z, i.second.begin) == i.second)
      && (i.result == Unique ==> i.second == SysInfo(0, 0, 0, 0, ""))
  {
    hide Start, End, UtcClear, StartsFirst, YearOf, GetInfo, CeilMinutes;
    var utcs, utcd := tp - z.offset, tp - (z.offset + z.save);
    if Start(z, y) <= utcd < End(z, y) { DstInterval(z, y, utcd); }
    if utcs < Start(z, y) { StdInterval(z, y - 1, utcs); }
    if End(z, y) <= utcs { StdInterval(z, y, utcs); }
    if GetLocalInfo(z, tp).result == Nonexistent {
      if z.save > 0 {
        StdInterval(z, y - 1, Start(z, y) - 1);
        DstInterval(z, y, Start(z, y));
      } else {
        DstInterval(z, y, End(z, y) - 1);
        StdInterval(z, y, End(z, y));
      }
    }
  }

  /** Going to local time and back returns the instant, for one of the two choices; without a
      choice it returns the instant or reports that the local time is ambiguous. */
  lemma ToSysToLocal(z: Zone, t: int)
    requires HasRules(z) && UtcClear(z) && LocalClear(z) && StartsFirst(z) && LastsLongEnough(z)
    ensures ToSysChoosing(z, ToLocal(z, t), Earliest) == t || ToSysChoosing(z, ToLocal(z, t), Latest) == t
    ensures ToSys(z, ToLocal(z, t)) == Time(t) || ToSys(z, ToLocal(z, t)) == AmbiguousLocalTime
  {
    hide RuleAt, YearStart, YearOf, GetInfo, GetLocalInfo, IsDst;
    var tp := ToLocal(z, t);
    OffsetOf(z, t);
    CountsHere(z, tp);
    assert ReadsAs(z, t, tp);
    LocalInfoIsSysInfo(z, tp);
    AnswersAreInstants(z, tp);
  }

  /** What `to_sys` answers reads as the local time again, for every local time that exists. */
  lemma AnswersAreInstants(z: Zone, tp: int)
    requires HasRules(z) && UtcClear(z) && LocalClear(z) && StartsFirst(z) && LastsLongEnough(z)
    ensures var i := GetLocalInfo(z, tp);
      && (i.result != Nonexistent ==>
          ReadsAs(z, ToSysChoosing(z, tp, Earliest), tp) && ReadsAs(z, ToSysChoosing(z, tp, Latest), tp))
      && (i.result == Ambiguous ==> ToSysChoosing(z, tp, Earliest) < ToSysChoosing(z, tp, Latest))
  {
    hide RuleAt, YearStart, YearOf, GetInfo, GetLocalInfo;
    LocalInfoIsSysInfo(z, tp);
  }

  /** A local time that does not exist is answered, by either choice, with the moment at which the
      clock jumps over it. */
  lemma GapAnswer(z: Zone, tp: int, c: Choose)
    requires HasRules(z) && UtcClear(z) && LocalClear(z) && StartsFirst(z) && LastsLongEnough(z) && NoInstant(z, tp)
    ensures var t := ToSysChoosing(z, tp, c);
      && ToSysChoosing(z, tp, Earliest) == ToSysChoosing(z, tp, Latest) == t
      && ToLocal(z, t - 1) < tp < ToLocal(z, t) && GetInfo(z, t).begin == t
  {
    hide RuleAt, YearStart, YearOf, GetInfo, GetLocalInfo, NoInstant, OneInstant, TwoInstants;
    CountsHere(z, tp);
    CountsAreExclusive(z, tp);
    LocalInfoIsSysInfo(z, tp);
  }

  /** `to_sys` without a choice: the one instant, or why there is not just one. */
  lemma ToSysTells(z: Zone, tp: int)
    requires HasRules(z) && UtcClear(z) && LocalClear(z) && StartsFirst(z) && LastsLongEnough(z)
    ensures ToSys(z, tp) == NonexistentLocalTime <==> NoInstant(z, tp)
    ensures ToSys(z, tp) == AmbiguousLocalTime <==> TwoInstants(z, tp)
    ensures forall t :: ToSys(z, tp) == Time(t) <==> OneInstant(z, tp) && ReadsAs(z, t, tp)
  {
    hide RuleAt, YearStart, YearOf, GetInfo, GetLocalInfo, ToLocal, ReadsAs;
    CountsHere(z, tp);
    CountsAreExclusive(z, tp);
    AnswersAreInstants(z, tp);
    UniqueAnswer(z, tp);
  }

  lemma UniqueAnswer(z: Zone, tp: int)
    requires HasRules(z)
    ensures ToSys(z, tp).Time? ==> ToSys(z, tp).t == ToSysChoosing(z, tp, Earliest)
    ensures GetLocalInfo(z, tp).result == Unique <==> ToSys(z, tp).Time?
  {
    hide GetLocalInfo;
  }

  /** In year `y` the clock goes from standard to daylight time when it is about to show the start
      rule's time, and back when it is about to show the end rule's time. */
  ghost predicate ClockChanges(z: Zone, y: int)
    requires HasRules(z)
  {
    var t, e := RuleAt(z.start, y) - z.offset, RuleAt(z.end, y) - z.offset - z.save;
    && ToLocal(z, t - 1) == RuleAt(z.start, y) - 1 && ToLocal(z, t) == RuleAt(z.start, y) + z.save
    && ToLocal(z, e - 1) == RuleAt(z.end, y) - 1 && ToLocal(z, e) == RuleAt(z.end, y) - z.save
  }

  lemma ClockChangesIn(z: Zone, y: int)
    requires HasRules(z) && UtcClear(z) && StartsFirst(z)
    requires End(z, y - 1) < Start(z, y) < End(z, y) < Start(z, y + 1)
    ensures ClockChanges(z, y)
  {
    hide RuleAt, YearStart, GetInfo;
    StdInterval(z, y - 1, Start(z, y) - 1);
    DstInterval(z, y, Start(z, y));
    DstInterval(z, y, End(z, y) - 1);
    StdInterval(z, y, End(z, y));
  }

  // ----- Which zones meet the conditions

  lemma MonthFirstStep(y: int, m: int)
    requires 1 <= m <= 12
    ensures MonthFirst(y, m) + LastDay(y, m) == if m < 12 then MonthFirst(y, m + 1) else YearFirst(y + 1)
  {
    hide ToDays;
    DayShift(y, m, LastDay(y, m));
    NextDayNumber(Date(y, m, LastDay(y, m)));
  }

  /** The days before and after a month in its year. */
  lemma {:induction false} MonthInYear(y: int, m: int)
    requires 1 <= m <= 12
    ensures MonthFirst(y, m) >= YearFirst(y) + 28 * (m - 1)
    ensures MonthFirst(y, m) + LastDay(y, m) + 28 * (12 - m) <= YearFirst(y + 1)
  {
    hide MonthFirst, LastDay;
    FromJanuary(y, m);
    ToDecember(y, m);
  }

  lemma {:induction false} FromJanuary(y: int, m: int)
    requires 1 <= m <= 12
    ensures MonthFirst(y, m) >= YearFirst(y) + 28 * (m - 1)
  {
    hide MonthFirst, LastDay;
    if m > 1 {
      FromJanuary(y, m - 1);
      MonthFirstStep(y, m - 1);
      LastDayRange(y, m - 1);
    }
  }

  lemma {:induction false} ToDecember(y: int, m: int)
    requires 1 <= m <= 12
    ensures MonthFirst(y, m) + LastDay(y, m) + 28 * (12 - m) <= YearFirst(y + 1)
    decreases 12 - m
  {
    hide MonthFirst, LastDay;
    MonthFirstStep(y, m);
    if m < 12 {
      ToDecember(y, m + 1);
      LastDayRange(y, m + 1);
    }
  }

  /** Months two apart have a whole month between them. */
  lemma {:induction false} MonthsApart(y: int, a: int, b: int)
    requires 1 <= a && a + 2 <= b <= 12
    ensures MonthFirst(y, b) >= MonthFirst(y, a) + LastDay(y, a) + 28
    decreases b - a
  {
    hide MonthFirst, LastDay;
    MonthFirstStep(y, b - 1);
    LastDayRange(y, b - 1);
    if a + 2 == b {
      MonthFirstStep(y, a);
    } else {
      MonthsApart(y, a, b - 1);
    }
  }

  /** A weekday rule as POSIX writes it: month 1 to 12, week 1 to 5, at most a week of hours. */
  predicate WeekdayRule(r: ZoneRule) {
    r.MonthRule? && 1 <= r.m <= 12 && 0 <= r.wd <= 6 && 1 <= r.n <= 5 && 0 <= r.time <= 7 * DAY
  }

  /** Such a rule applies on a day of its month. */
  lemma WeekdayRuleDay(r: ZoneRule, y: int)
    requires WeekdayRule(r)
    ensures MonthFirst(y, r.m) * DAY <= RuleAt(r, y) - r.time <= (MonthFirst(y, r.m) + LastDay(y, r.m) - 1) * DAY
  {
    hide MonthFirst, LastWeekdayToDays, NthFrom, LastDay, Weekday, FromDays;
    LastDayRange(y, r.m);
    if r.n == 5 {
      LastWeekdayIsLatest(y, r.m, r.wd);
      InMonth(LastWeekdayToDays(y, r.m, r.wd), y, r.m);
    } else {
      NthFromPlace(MonthFirst(y, r.m), r.wd, r.n);
    }
  }

  predicate ModestClock(z: Zone) {
    -7 * DAY <= z.offset <= 7 * DAY && -7 * DAY <= z.save <= 7 * DAY
  }

  /** Where two weekday rules put the transitions of a year. */
  lemma WeekdayZone(z: Zone, y: int)
    requires WeekdayRule(z.start) && WeekdayRule(z.end) && ModestClock(z)
    requires 2 <= z.start.m <= 11 && 2 <= z.end.m <= 11
    ensures YearStart(y) + 14 * DAY <= RuleAt(z.start, y) <= YearStart(y + 1) - 14 * DAY
    ensures YearStart(y) + 14 * DAY <= RuleAt(z.end, y) <= YearStart(y + 1) - 14 * DAY
    ensures z.start.m + 2 <= z.end.m ==> RuleAt(z.end, y) - RuleAt(z.start, y) >= 22 * DAY
    ensures z.end.m + 2 <= z.start.m ==> RuleAt(z.start, y) - RuleAt(z.end, y) >= 22 * DAY
  {
    hide RuleAt, MonthFirst, LastDay;
    WeekdayRuleDay(z.start, y);
    WeekdayRuleDay(z.end, y);
    MonthInYear(y, z.start.m);
    MonthInYear(y, z.end.m);
    if z.start.m + 2 <= z.end.m { MonthsApart(y, z.start.m, z.end.m); }
    if z.end.m + 2 <= z.start.m { MonthsApart(y, z.end.m, z.start.m); }
  }

  /** Such rules keep clear of year boundaries. */
  lemma WeekdayZoneIsClear(z: Zone)
    requires WeekdayRule(z.start) && WeekdayRule(z.end) && ModestClock(z)
    requires 2 <= z.start.m <= 11 && 2 <= z.end.m <= 11
    ensures UtcClear(z) && LocalClear(z)
  {
    hide RuleAt, YearStart;
    forall y
      ensures YearStart(y) <= Start(z, y) < YearStart(y + 1) && YearStart(y) <= End(z, y) <= YearStart(y + 1)
    {
      WeekdayZone(z, y);
    }
    forall y
      ensures YearStart(y) <= RuleAt(z.start, y) <= YearStart(y + 1)
      ensures YearStart(y) <= RuleAt(z.start, y) + z.save <= YearStart(y + 1)
      ensures YearStart(y) <= RuleAt(z.end, y) <= YearStart(y + 1)
      ensures YearStart(y) <= RuleAt(z.end, y) - z.save <= YearStart(y + 1)
    {
      WeekdayZone(z, y);
    }
  }

  /** Northern zones such as `EST5EDT,M3.2.0,M11.1.0` meet every condition. */
  lemma NorthernZone(z: Zone)
    requires WeekdayRule(z.start) && WeekdayRule(z.end) && ModestClock(z)
    requires 2 <= z.start.m && z.start.m + 2 <= z.end.m <= 11
    ensures UtcClear(z) && LocalClear(z) && StartsFirst(z) && LastsLongEnough(z)
    ensures forall y :: ClockChanges(z, y)
  {
    hide RuleAt, YearStart, UtcClear, LocalClear, ClockChanges;
    WeekdayZoneIsClear(z);
    forall y
      ensures End(z, y) - Start(z, y) >= 7 * DAY
    {
      WeekdayZone(z, y);
    }
    forall y
      ensures ClockChanges(z, y)
    {
      WeekdayZone(z, y - 1);
      WeekdayZone(z, y);
      WeekdayZone(z, y + 1);
      assert y - 1 + 1 == y;
      ClockChangesIn(z, y);
    }
  }

  /** Southern zones such as `AEST-10AEDT,M10.1.0,M4.1.0/3` do not: they never report daylight time,
      their intervals do not tile, and unless the clock stays as it is some local time is misjudged. */
  lemma SouthernZone(z: Zone)
    requires WeekdayRule(z.start) && WeekdayRule(z.end) && ModestClock(z)
    requires 2 <= z.end.m && z.end.m + 2 <= z.start.m <= 11
    ensures forall t :: GetInfo(z, t).offset == z.offset && GetInfo(z, t).abbrev == z.stdAbbrev
    ensures UtcClear(z) && !forall t :: Tiles(z, t)
    ensures LocalClear(z) && ((forall tp :: Counts(z, tp)) <==> z.save == 0)
  {
    hide RuleAt, YearStart, Tiles, YearOf, Counts, UtcClear, LocalClear;
    WeekdayZoneIsClear(z);
    forall y
      ensures End(z, y) < Start(z, y)
    {
      WeekdayZone(z, y);
    }
    assert End(z, 0) < Start(z, 0);
    TilingIff(z);
    ClassificationIff(z);
  }

  /** Month and day that `Jn` names. */
  function JulianDate(n: int): (int, int)
    requires 1 <= n <= 365
  {
    if n <= 31 then (1, n)
    else if n <= 59 then (2, n - 31)
    else var mp := (5 * (n - 60) + 2) / 153; (mp + 3, n - 60 - MarchMonth(mp) + 1)
  }

  /** `Jn` names the same month and day in every year: 29 February is never counted. In other years it
      is simply the `n`-th day. */
  lemma JulianSkipsLeapDay(n: int, time: int, y: int)
    requires 1 <= n <= 365
    ensures var d := (RuleAt(Julian(n, time), y) - time) / DAY;
      && RuleAt(Julian(n, time), y) == d * DAY + time
      && FromDays(d) == Date(y, JulianDate(n).0, JulianDate(n).1)
      && (!IsLeap(y) ==> d == YearFirst(y) + n - 1)
  {
    hide ToDays, FromDays, IsLeap, MarchMonth;
    var x := Date(y, JulianDate(n).0, JulianDate(n).1);
    DayShift(y, 1, 0);
    JulianOk(n, y);
    JulianDay(n, y);
    FromToDays(x);
  }

  lemma JulianOk(n: int, y: int)
    requires 1 <= n <= 365
    ensures Ok(Date(y, JulianDate(n).0, JulianDate(n).1))
  {
    if n > 59 {
      MonthOfDay(n - 60);
      var mp := (5 * (n - 60) + 2) / 153;
      assert mp <= 9;
      MonthLengths(mp + 3);
    }
  }

  lemma JulianDay(n: int, y: int)
    requires 1 <= n <= 365
    ensures ToDays(Date(y, JulianDate(n).0, JulianDate(n).1)) ==
      YearFirst(y) + n - 1 + if IsLeap(y) && n > 59 then 1 else 0
  {
    hide ToDays, IsLeap;
    ToDaysValue(Date(y, 1, 1));
    ToDaysValue(Date(y, JulianDate(n).0, JulianDate(n).1));
    if n > 59 {
      var mp := (5 * (n - 60) + 2) / 153;
      MonthOfDay(n - 60);
      assert mp <= 9;
      MarchFirstStep(y - 1);
      LeapEuclid(y);
      LeapMarchYear(y);
      assert My(Date(y, mp + 3, 1)) == y && My(Date(y, 1, 1)) == y - 1;
    }
  }

  /** `Mm.n.d` names the `n`-th such weekday of the month, week 5 meaning the last. */
  lemma WeekdayRuleMeans(r: ZoneRule, y: int)
    requires WeekdayRule(r)
    ensures var n := (RuleAt(r, y) - r.time) / DAY;
      && RuleAt(r, y) == n * DAY + r.time
      && Weekday(n) == r.wd && FromDays(n).y == y && FromDays(n).m == r.m
      && (r.n < 5 ==> (FromDays(n).d - 1) / 7 + 1 == r.n)
      && (r.n == 5 ==> forall k: int :: k > n && FromDays(k).y == y && FromDays(k).m == r.m ==> Weekday(k) != r.wd)
  {
    hide MonthFirst, LastWeekdayToDays, NthFrom, LastDay, Weekday, FromDays;
    LastDayRange(y, r.m);
    if r.n == 5 {
      LastWeekdayIsLatest(y, r.m, r.wd);
    } else {
      var first := MonthFirst(y, r.m);
      var n := NthFrom(first, r.wd, r.n);
      NthFromPlace(first, r.wd, r.n);
      InMonth(n, y, r.m);
      IndexBounds(n - first);
      IndexUnique(n - first, r.n, (n - first) / 7 + 1);
    }
  }

  /** `n` counts days from 1 January, 29 February included. */
  lemma ZeroBasedMeans(n: int, time: int, y: int)
    requires 0 <= n <= 365 && (n == 365 ==> IsLeap(y))
    ensures var d := (RuleAt(ZeroBased(n, time), y) - time) / DAY;
      RuleAt(ZeroBased(n, time), y) == d * DAY + time && FromDays(d).y == y && d - YearFirst(y) == n
  {
    hide FromDays, ToDays, IsLeap;
    InYear(YearFirst(y) + n, y);
    YearLengthIs(y);
  }

  lemma YearLengthIs(y: int)
    ensures YearFirst(y + 1) - YearFirst(y) == if IsLeap(y) then 366 else 365
  {
    hide ToDays, IsLeap, MarchFirst;
    Place(Date(y, 1, 1));
    Place(Date(y + 1, 1, 1));
    MarchFirstStep(y - 1);
    LeapEuclid(y);
    LeapMarchYear(y);
  }
}
