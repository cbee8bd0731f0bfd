/** The civil calendar of date.h: closed-form conversions between a day number
    (days since 1970-01-01) and year, month and day. Years are unbounded. */
module Calendar {
  import opened CArith

  datatype Date = Date(y: int, m: int, d: int)

  predicate IsLeap(y: int) {
    TMod(y, 4) == 0 && (TMod(y, 100) != 0 || TMod(y, 400) == 0)
  }

  /** `year_month_day_last::day`. */
  function LastDay(y: int, m: int): int
    requires 1 <= m <= 12
  {
    if m != 2 || !IsLeap(y) then [31, 28, 31, 30, 31, 30, 31, 31, 30, 31, 30, 31][m - 1] else 29
  }

  /** `year_month_day::ok`. */
  predicate Ok(x: Date) {
    1 <= x.m <= 12 && 1 <= x.d <= LastDay(x.y, x.m)
  }

  /** `operator<` on dates. */
  predicate Before(a: Date, b: Date) {
    if a.y < b.y then true
    else if a.y > b.y then false
    else if a.m < b.m then true
    else if a.m > b.m then false
    else a.d < b.d
  }

  /** `year_month_day::to_days`, over the integers. */
  function ToDays(x: Date): int
  {
    var y := x.y - (if x.m <= 2 then 1 else 0);
    var era := TDiv(if y >= 0 then y else y - 399, 400);
    var yoe := y - era * 400;
    var doy := (153 * (if x.m > 2 then x.m - 3 else x.m + 9) + 2) / 5 + x.d - 1;
    era * 146097 + (yoe * 365 + yoe / 4 - yoe / 100 + doy) - 719468
  }

  /** `year_month_day::to_days` as the machine computes it, in `unsigned` after the era. */
  function ToDaysUnsigned(x: Date): int
    requires 0 <= x.m < 256 && 0 <= x.d < 256
  {
    var y := x.y - (if x.m <= 2 then 1 else 0);
    var era := TDiv(if y >= 0 then y else y - 399, 400);
    var yoe := U32(y - era * 400);
    var doy := U32((153 * (if x.m > 2 then x.m - 3 else x.m + 9) + 2) / 5 + x.d - 1);
    var doe := U32(yoe * 365 + yoe / 4 - yoe / 100 + doy);
    era * 146097 + S32(doe) - 719468
  }

  /** `year_month_day::from_days`. */
  function FromDays(n: int): Date
  {
    var z := n + 719468;
    var era := TDiv(if z >= 0 then z else z - 146096, 146097);
    FromDayOfEra(era, z - era * 146097)
  }

  /** The part of `from_days` that follows the split into era and day of era. */
  function FromDayOfEra(era: int, doe: int): Date
  {
    var yoe := (doe - doe / 1460 + doe / 36524 - doe / 146096) / 365;
    FromDayOfYear(yoe + era * 400, doe - (365 * yoe + yoe / 4 - yoe / 100))
  }

  /** The part of `from_days` that follows the split into year and day of year. */
  function FromDayOfYear(y: int, doy: int): Date
  {
    var mp := (5 * doy + 2) / 153;
    var d := doy - (153 * mp + 2) / 5 + 1;
    var m := if mp < 10 then mp + 3 else mp - 9;
    Date(y + (if m <= 2 then 1 else 0), m, d)
  }

  // ----- The March-based year the closed forms are built on

  /** Days from 1 March of year 0 of an era to 1 March of year `yoe` of it. */
  function MarchYear(yoe: int): int {
    365 * yoe + yoe / 4 - yoe / 100
  }

  function MarchYearLength(yoe: int): int {
    if yoe % 4 == 3 && (yoe % 100 != 99 || yoe == 399) then 366 else 365
  }

  lemma MarchYearStep(yoe: int)
    requires 0 <= yoe < 399
    ensures MarchYear(yoe + 1) == MarchYear(yoe) + MarchYearLength(yoe)
  {
  }

  /** The year recovered from a day of the era: `doe / 1460 - doe / 36524 + doe / 146096`
      counts the leap days before it, give or take one that the division by 365 absorbs. */
  lemma YearOfEra(yoe: int, doy: int)
    requires 0 <= yoe < 400 && 0 <= doy < MarchYearLength(yoe)
    ensures var doe := MarchYear(yoe) + doy;
      0 <= doe < 146097 && 365 * yoe <= doe - doe / 1460 + doe / 36524 - doe / 146096 < 365 * yoe + 365
  {
    var doe := MarchYear(yoe) + doy;
    var h, k, r := yoe / 100, yoe / 4, yoe % 4;
    assert doe == 1461 * k + 365 * r - h + doy;
    Centuries(doe - 36524 * h, h);
    FourYears(k, k - h + 365 * r + doy);
    assert doe == 1460 * k + (k - h + 365 * r + doy);
  }

  lemma Centuries(x: int, h: int)
    requires 0 <= h <= 3 && 0 <= x <= 36524 && (x == 36524 ==> h == 3)
    ensures (36524 * h + x) / 36524 - (36524 * h + x) / 146096 == h
  {
  }

  lemma FourYears(k: int, t: int)
    requires 0 <= t < 2920
    ensures (1460 * k + t) / 1460 == k + if t >= 1460 then 1 else 0
  {
  }

  /** Every day of an era lies in exactly one March-based year. */
  lemma DayOfEra(doe: int, from: int) returns (yoe: int)
    requires 0 <= from < 400 && MarchYear(from) <= doe < 146097
    ensures 0 <= yoe < 400 && 0 <= doe - MarchYear(yoe) < MarchYearLength(yoe)
    decreases 400 - from
  {
    if doe < MarchYear(from) + MarchYearLength(from) {
      yoe := from;
    } else {
      if from < 399 { MarchYearStep(from); }
      yoe := DayOfEra(doe, from + 1);
    }
  }

  /** Day of the March-based year on which month `mp` (0 is March) begins. */
  function MarchMonth(mp: int): int {
    (153 * mp + 2) / 5
  }

  lemma MonthOfYear(mp: int, d: int)
    requires 0 <= mp < 12 && 0 <= d < MarchMonth(mp + 1) - MarchMonth(mp)
    ensures (5 * (MarchMonth(mp) + d) + 2) / 153 == mp
  {
  }

  lemma MonthOfDay(doy: int)
    requires 0 <= doy < 366
    ensures var mp := (5 * doy + 2) / 153;
      0 <= mp < 12 && 0 <= doy - MarchMonth(mp) < MarchMonth(mp + 1) - MarchMonth(mp)
  {
  }

  /** March-based month number. */
  function Mp(m: int): int {
    if m > 2 then m - 3 else m + 9
  }

  /** The March-based year a date belongs to. */
  function My(x: Date): int {
    x.y - (if x.m <= 2 then 1 else 0)
  }

  /** The era of a year or of a day: the negative branch turns truncation into flooring. */
  lemma EraFloors(y: int)
    ensures TDiv(if y >= 0 then y else y - 399, 400) == y / 400
    ensures TDiv(if y >= 0 then y else y - 146096, 146097) == y / 146097
  {
  }

  /** `ToDays` around the start of its March-based year. */
  lemma ToDaysValue(x: Date)
    ensures ToDays(x) == My(x) / 400 * 146097 + MarchYear(My(x) % 400) + MarchMonth(Mp(x.m)) + x.d - 1 - 719468
  {
    var y := My(x);
    EraFloors(y);
    assert y - y / 400 * 400 == y % 400;
  }

  lemma MarchYearRange(yoe: int)
    requires 0 <= yoe < 400
    ensures 0 <= MarchYear(yoe) < 146097 && U32(yoe) == yoe
  {
  }

  /** A wrapped `d - 1` is wrapped back by the sum. */
  lemma WrapsBack(w: int, v: int)
    requires 0 <= w < 146097 && -1 <= v < 10000
    ensures S32(U32(w + U32(v))) == w + v
  {
    if v == -1 {
      assert U32(v) == 0xFFFF_FFFF;
    }
  }

  /** The `unsigned` computation is exact for every month and day the fields can hold: only
      `d - 1` can wrap, for day 0, and the conversion back to `int` undoes it. */
  lemma UnsignedIsExact(x: Date)
    requires 0 <= x.m < 256 && 0 <= x.d < 256
    ensures ToDaysUnsigned(x) == ToDays(x)
  {
    hide S32, U32, ToDays, TDiv;
    var y := My(x);
    ToDaysValue(x);
    EraFloors(y);
    MarchYearRange(y % 400);
    assert y - y / 400 * 400 == y % 400;
    WrapsBack(MarchYear(y % 400), MarchMonth(Mp(x.m)) + x.d - 1);
  }

  lemma FromDayOfEraValue(era: int, yoe: int, doy: int)
    requires 0 <= yoe < 400 && 0 <= doy < MarchYearLength(yoe)
    ensures FromDayOfEra(era, MarchYear(yoe) + doy) == FromDayOfYear(yoe + era * 400, doy)
  {
    hide FromDayOfYear;
    var doe := MarchYear(yoe) + doy;
    YearOfEra(yoe, doy);
    Quotient(doe - doe / 1460 + doe / 36524 - doe / 146096, yoe);
  }

  lemma Quotient(lead: int, yoe: int)
    requires 365 * yoe <= lead < 365 * yoe + 365
    ensures lead / 365 == yoe
  {
  }

  lemma FromDayOfYearValue(y: int, mp: int, d: int)
    requires 0 <= mp < 12 && 0 <= d < MarchMonth(mp + 1) - MarchMonth(mp)
    ensures var m := if mp < 10 then mp + 3 else mp - 9;
      FromDayOfYear(y, MarchMonth(mp) + d) == Date(y + (if m <= 2 then 1 else 0), m, d + 1)
  {
    MonthOfYear(mp, d);
  }

  lemma SplitEra(era: int, doe: int)
    requires 0 <= doe < 146097
    ensures FromDays(era * 146097 + doe - 719468) == FromDayOfEra(era, doe)
  {
    hide FromDayOfEra;
    var z := era * 146097 + doe;
    EraFloors(z);
    assert z / 146097 == era;
  }

  /** `FromDays` around the start of its March-based year. */
  lemma FromDaysValue(era: int, yoe: int, mp: int, d: int)
    requires 0 <= yoe < 400 && 0 <= mp < 12 && 0 <= d < MarchMonth(mp + 1) - MarchMonth(mp)
    requires MarchMonth(mp) + d < MarchYearLength(yoe)
    ensures var m := if mp < 10 then mp + 3 else mp - 9;
      FromDays(era * 146097 + MarchYear(yoe) + MarchMonth(mp) + d - 719468)
      == Date(yoe + era * 400 + (if m <= 2 then 1 else 0), m, d + 1)
  {
    hide FromDays, FromDayOfEra, FromDayOfYear;
    var doy := MarchMonth(mp) + d;
    YearOfEra(yoe, doy);
    FromDayOfEraValue(era, yoe, doy);
    FromDayOfYearValue(yoe + era * 400, mp, d);
    SplitEra(era, MarchYear(yoe) + doy);
  }

  // ----- The conversions are inverse to each other

  /** `ok()` in March-based terms. */
  lemma OkInMarchYear(x: Date)
    requires 1 <= x.m <= 12
    ensures Ok(x) <==> var mp := Mp(x.m);
      1 <= x.d <= MarchMonth(mp + 1) - MarchMonth(mp) && MarchMonth(mp) + x.d <= MarchYearLength(My(x) % 400)
  {
    MonthLengths(x.m);
    if x.m == 2 {
      LeapEuclid(x.y);
      LeapMarchYear(x.y);
    }
  }

  lemma MonthLengths(m: int)
    requires 1 <= m <= 12
    ensures MarchMonth(Mp(m)) >= 0
    ensures m != 2 ==> MarchMonth(Mp(m) + 1) - MarchMonth(Mp(m)) == LastDay(0, m) && MarchMonth(Mp(m) + 1) <= 365
    ensures m == 2 ==> MarchMonth(Mp(m)) == 337 && MarchMonth(Mp(m) + 1) == 367
  {
    hide TMod;
  }

  lemma LeapEuclid(y: int)
    ensures IsLeap(y) <==> y % 4 == 0 && (y % 100 != 0 || y % 400 == 0)
  {
    Divisible4(y);
    Divisible100(y);
    Divisible400(y);
  }

  lemma Divisible4(y: int)
    ensures TMod(y, 4) == 0 <==> y % 4 == 0
  {
  }

  lemma Divisible100(y: int)
    ensures TMod(y, 100) == 0 <==> y % 100 == 0
  {
  }

  lemma Divisible400(y: int)
    ensures TMod(y, 400) == 0 <==> y % 400 == 0
  {
  }

  lemma LeapMarchYear(y: int)
    ensures MarchYearLength((y - 1) % 400) == if y % 4 == 0 && (y % 100 != 0 || y % 400 == 0) then 366 else 365
  {
    var r, q := y % 400, y / 400;
    assert y == 400 * q + r;
    Remainder4(r, q);
    Remainder100(r, q);
    YearBefore(y);
    YearBeforeLength(r);
  }

  lemma YearBeforeLength(r: int)
    requires 0 <= r < 400
    ensures MarchYearLength(if r == 0 then 399 else r - 1) ==
      if r % 4 == 0 && (r % 100 != 0 || r == 0) then 366 else 365
  {
  }

  lemma YearBefore(y: int)
    ensures (y - 1) % 400 == if y % 400 == 0 then 399 else y % 400 - 1
  {
  }

  lemma Remainder4(r: int, q: int)
    ensures (400 * q + r) % 4 == r % 4
  {
    assert 400 * q + r == 4 * (100 * q + r / 4) + r % 4;
  }

  lemma Remainder100(r: int, q: int)
    ensures (400 * q + r) % 100 == r % 100
  {
    assert 400 * q + r == 100 * (4 * q + r / 100) + r % 100;
  }

  /** Every `ok()` date survives the conversion to a day number and back. */
  lemma FromToDays(x: Date)
    requires Ok(x)
    ensures FromDays(ToDays(x)) == x
  {
    hide FromDays, ToDays, IsLeap;
    ToDaysValue(x);
    OkInMarchYear(x);
    FromDaysValue(My(x) / 400, My(x) % 400, Mp(x.m), x.d - 1);
  }

  /** Every day number survives the conversion to a date and back, and the date is `ok()`. */
  lemma ToFromDays(n: int)
    ensures Ok(FromDays(n)) && ToDays(FromDays(n)) == n
  {
    hide FromDays, ToDays, IsLeap;
    var z := n + 719468;
    var era, doe := z / 146097, z % 146097;
    var yoe := DayOfEra(doe, 0);
    var doy := doe - MarchYear(yoe);
    MonthOfDay(doy);
    var mp := (5 * doy + 2) / 153;
    FromDaysValue(era, yoe, mp, doy - MarchMonth(mp));
    var x := FromDays(n);
    assert n == era * 146097 + MarchYear(yoe) + MarchMonth(mp) + (doy - MarchMonth(mp)) - 719468;
    assert My(x) == yoe + era * 400 && Mp(x.m) == mp;
    assert My(x) / 400 == era && My(x) % 400 == yoe;
    OkInMarchYear(x);
    ToDaysValue(x);
  }

  /** The `unsigned` intermediate values of `from_days` keep to the ranges its comments give, so none
      of its unsigned subtractions wraps. */
  lemma FromDaysRanges(n: int)
    ensures var z := n + 719468;
      var doe := z - TDiv(if z >= 0 then z else z - 146096, 146097) * 146097;
      var yoe := (doe - doe / 1460 + doe / 36524 - doe / 146096) / 365;
      var doy := doe - (365 * yoe + yoe / 4 - yoe / 100);
      var mp := (5 * doy + 2) / 153;
      && 0 <= doe <= 146096 && 0 <= yoe <= 399 && 0 <= doy <= 365 && 0 <= mp <= 11
      && 1 <= doy - (153 * mp + 2) / 5 + 1 <= 31
  {
    hide TDiv;
    var z := n + 719468;
    EraFloors(z);
    var doe := z % 146097;
    assert z - z / 146097 * 146097 == doe;
    var yoe := DayOfEra(doe, 0);
    YearOfEra(yoe, doe - MarchYear(yoe));
    Quotient(doe - doe / 1460 + doe / 36524 - doe / 146096, yoe);
    MonthOfDay(doe - MarchYear(yoe));
    MonthIsShort((5 * (doe - MarchYear(yoe)) + 2) / 153);
  }

  lemma MonthIsShort(mp: int)
    requires 0 <= mp < 12
    ensures MarchMonth(mp + 1) - MarchMonth(mp) <= 31
  {
  }
}
