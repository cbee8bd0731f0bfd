# Verified models of valoserveri

valoserveri is a server for stage lights. Clients send it light packets over UDP or websockets; it
keeps a snapshot of the lights for monitors and a frame for the DMX hardware. It is configured
by an INI file, and its log times come from a vendored calendar and time-zone library. This project
models the parts of that code whose correctness is hardest to see, and proves what they are for.

| file | models |
|---|---|
| Options.dfy | a value or its absence |
| CArith.dfy | truncating division and 32-bit unsigned arithmetic of C |
| Calendar.dfy, CivilCalendar.dfy | day numbers and civil dates (date.h), against a calendar walked day by day |
| Weekdays.dfy, IsoWeek.dfy | weekdays, weekdays of a month, ISO 8601 week dates (date.h, iso_week.h) |
| MonthDay.dfy | the days time-zone rules name (tz.cpp) |
| Rules.dfy, RuleSplit.dfy, RuleTable.dfy, RuleDatabase.dfy | cutting overlapping time-zone rules (tz.cpp) |
| RuleOrder.dfy | when a rule table is in time order (tz.cpp) |
| RuleWalk.dfy | stepping through rules by year and position, and when that is time order (tz.cpp) |
| PosixZone.dfy | POSIX time zones (ptz.h), after section 8.3 of the Base Definitions volume of POSIX.1-2017 |
| LightPacket.dfy | light packets: parser and client-side encoder |
| Dmx.dfy | light configuration and the hardware frame |
| Serveri.dfy, ServeriLoop.dfy | the server as a state machine, and the object that implements it |
| Docopt.dfy | pattern expansion (docopt.py) |
| Ini.dfy, IniBuffer.dfy, IniFile.dfy, IniRoundTrip.dfy | the INI parser: meaning, line buffer, files as people write them, round trip |

## Main results

**Rule tables.** `split_overlaps` inserts into the vector it scans, moves its own end index and
re-sorts after every cut, while its inner index never goes back. It still leaves any two rules of a
name with identical or disjoint year ranges (`RuleTable.Table.SplitOverlaps`, and for the whole table
`RuleDatabase.SplitTable`). The argument follows the set of years at which some rule begins or has just
ended: a cut never changes that set, and a counting argument shows where the sort puts the rules that
were already compared. Rule-years are conserved and bound the number of rules, which gives termination.
What is in force in each year is conserved by the cuts. The last loop, which gives single-year rules fixed
dates, keeps all effects exactly when the days of the years that the cuts isolate lie in these years. On
the result, `find_next_rule` visits every rule in every one of its years exactly once, by year and then by
position, and `find_previous_rule` inverts it. Although each sort starts in the middle, the cut table is
sorted as a whole by year, month and day as written; this needs an invariant of its own. The walk is
chronological, and rules that the sort cannot tell apart share their moments, exactly when months and days
as written tell the order of the moments in the original rules (`RuleDatabase.SplitWalkInTimeIff`). Rules in different months, or on days of
a month that cannot cross, such as the 1st and the last Sunday, are enough.

**Calendar.** The closed forms are mutually inverse on all day numbers and agree with the Gregorian
calendar (section 3.2.1 of ISO 8601:2004) walked day by day from 1970-01-01. ISO week dates (section
4.1.4 of ISO 8601:2004) are a bijection with days, and a week belongs to the year of its Thursday.

**POSIX zones.** For zones whose transitions keep clear of year boundaries: the intervals of `get_info`
tile the time line exactly when daylight saving starts before it ends in each year, and local times are
classified as unique, ambiguous or nonexistent according to the number of instants that read as them
exactly when the saving is zero or daylight saving lasts at least as long as the clock is moved in each
year. The saving may have either sign. Northern zones written with weekday rules meet all conditions;
southern ones do not tile, and misjudge local times unless the saving is zero.

**Server.** Over every run, no update is lost on the way to the device or to a monitor, and from the
client's encoder to the bytes written to the device each light shows the last colour it was given. This
holds in all runs exactly when lights that packets can name do not share channels.

**docopt and INI.** `transform` terminates and keeps the multiset of cases. Settings written to an INI
file, with any white space, comments and blank lines, are read back, values of several lines exactly when
their names fit the buffer for the last name; the parser's return value is the number of the first
malformed line.

### Where the code does something its callers may not expect

- `canonicalize` changes the day of a rule when that day falls outside the rule's year: "Sunday on or
  before 1 January 2019" becomes 30 December 2019 (`MonthDay.CanonicalizeCanMoveADay`).
  `MonthDay.CanonicalizeKeepsDay` gives the exact condition for a day, `RuleTable.Table.SplitOverlaps` for
  a table.
- `find_next_rule` is documented to find the chronologically next rule. "Sunday on or after 1 March" is
  sorted before "2 March", so that in 2018 it steps from 4 March back to 2 March (`RuleWalk.NextCanGoBack`).
- POSIX zones written with weekday rules whose summer spans New Year never report daylight time, and
  classify some local time wrongly unless the saving is zero (`PosixZone.SouthernZone`).
- A light index of 128 or more does not survive the packet parser, which sign-extends it where `char` is
  signed, as the model takes it to be (`LightPacket.ParseEncodeIff`). A configured light with a number
  from 128 to 2^32 - 129 stays black (`Serveri.OutOfReachStaysBlack`).
- An inline comment after an empty INI value is taken for the value (`IniFile.LineMeans`, with the comment as the value).
- Continuation lines of an INI name of 50 characters or more land under another key
  (`IniRoundTrip.RoundTrip`).
- The tag whitelist lacks the capital letter I and contains the NUL character; it is modelled as it is.

## Model

| member | source | states |
|---|---|---|
| Calendar.UnsignedIsExact | foreign/date/include/date/date.h:2631-2648 | the unsigned computation of `to_days` equals the integer one for every month and day the fields can hold, although `d - 1` may wrap |
| Calendar.FromDaysRanges | foreign/date/include/date/date.h:2743-2762 | the intermediate values of `from_days` keep to the commented ranges for every day number, so nothing wraps |
| Calendar.FromToDays | foreign/date/include/date/date.h:2631-2672 | every `ok()` date survives `to_days` then `from_days` |
| Calendar.ToFromDays | foreign/date/include/date/date.h:2743-2762 | every day number survives `from_days` then `to_days`, and `from_days` only produces `ok()` dates |
| CivilCalendar.NextDayNumber | foreign/date/include/date/date.h:2416-2430 | the next civil day, by month lengths and leap years, is a valid date with the next day number |
| CivilCalendar.OrderIsDayOrder | foreign/date/include/date/date.h:2690-2700 | date order coincides with day-number order |
| CivilCalendar.FromDaysIsWalk | foreign/date/include/date/date.h:2743-2762 | `from_days` agrees with walking the calendar one day at a time from the epoch, forwards and backwards |
| Weekdays.WeekdayValue | foreign/date/include/date/date.h:1637-1644 | the two-branch truncating formula counts weekdays from Thursday, day zero, also before the epoch |
| Weekdays.WeekdayPlusDays | foreign/date/include/date/date.h:1721-1729 | adding days to a day's weekday gives the weekday of the later day |
| Weekdays.WeekdayDiffInverts | foreign/date/include/date/date.h:1712-1719 | the wrapping weekday difference is 0 to 6 days and inverts addition |
| Weekdays.OkMonthWeekdayIff | foreign/date/include/date/date.h:2913-2924 | `ok()` holds exactly when the weekday and index name a day of their own month |
| Weekdays.MonthWeekdayFromTo | foreign/date/include/date/date.h:2926-2945 | `to_days` then `from_days` gives the value back exactly when it is `ok()`, for any index |
| Weekdays.MonthWeekdayToFrom | foreign/date/include/date/date.h:2926-2945 | every day number survives `from_days` then `to_days`, through an `ok()` value |
| Weekdays.LastWeekdayIsLatest | foreign/date/include/date/date.h:3110-3117 | the result is in its month, on its weekday, and no later day of the month is |
| IsoWeek.WeeksInYear | foreign/date/include/date/iso_week.h:1012-1021 | every ISO year has 52 or 53 weeks, and the next one begins after exactly that many |
| IsoWeek.WeekDateToFrom | foreign/date/include/date/iso_week.h:1494-1511 | every day number survives `from_days` then `sys_days`, through an `ok()` week date |
| IsoWeek.WeekDateFromTo | foreign/date/include/date/iso_week.h:1470-1492 | every `ok()` week date survives `sys_days` then `from_days` |
| IsoWeek.WeekOfThursday | foreign/date/include/date/iso_week.h:1494-1511 | a day's ISO year is the year of its week's Thursday, and week w is the one with that year's w-th Thursday |
| MonthDay.OnOrBeforeIsUnique | foreign/date/src/tz.cpp:879-885 | `lteq` resolves to the one matching weekday among the day and the six before it |
| MonthDay.OnOrAfterIsUnique | foreign/date/src/tz.cpp:886-892 | `gteq` resolves to the one matching weekday among the day and the six after it |
| MonthDay.CanonicalizeKeepsDay | foreign/date/src/tz.cpp:902-939 | `canonicalize(y)` leaves `to_sys_days(y)` unchanged exactly when that day lies in year y |
| MonthDay.FixedStaysInYear | foreign/date/src/tz.cpp:868-893 | a fixed month and day always resolves to a day of its year, even past the end of its month |
| MonthDay.LastStaysInYear | foreign/date/src/tz.cpp:911-917 | "last weekday of a month" always lies in its year |
| MonthDay.CanonicalizeCanMoveADay | foreign/date/src/tz.cpp:918-927 | a day that `canonicalize` moves by a year |
| Rules.CutKeeps | foreign/date/src/tz.cpp:1281-1348 | the pieces of a cut pair have in each year the bodies the pair had, and as many rule-years |
| Rules.SplitKeeps | foreign/date/src/tz.cpp:1281-1348 | `split` conserves the bodies in force in every year and the rule-years of the table |
| Rules.SplitNonempty | foreign/date/src/tz.cpp:1281-1348 | every piece has a nonempty year range |
| Rules.SameEffectIff | foreign/date/src/tz.cpp:1281-1348 | two rules have the same effect exactly when day, time, clock, saving and abbreviation agree |
| Rules.CanonicalKeepsEffects | foreign/date/src/tz.cpp:1367-1371 | canonicalizing single-year rules keeps every year's effects when their days stay in their years |
| RuleSplit.SplitBounds | foreign/date/src/tz.cpp:1281-1348 | a cut neither adds nor removes a year at which some rule begins or has just ended |
| RuleSplit.FirstAfterSort | foreign/date/src/tz.cpp:1359-1364 | after cut and sort, the rule at `i` has the years the cut left to it |
| RuleSplit.StaysClear | foreign/date/src/tz.cpp:1357-1365 | after cut and sort, no rule up to `k` has a bound inside the rule at `i`, so `k` need not go back |
| RuleSplit.StaysBehind | foreign/date/src/tz.cpp:1357-1365 | after cut and sort, no rule up to `k` has an earlier month or day than the rule at `i` with the same start, even where the order by end year says nothing of the day |
| RuleSplit.SplitKeepsInner | foreign/date/src/tz.cpp:1357-1365 | a cut and sort keeps the inner loop's invariant for the next `k` |
| RuleSplit.SplitKeepsOuter | foreign/date/src/tz.cpp:1355-1366 | a cut and sort keeps the outer loop's invariant: what is done stays done |
| RuleSplit.FirstIsDone | foreign/date/src/tz.cpp:1355-1366 | after the inner loop, rule `i` has no bound of the table inside it |
| RuleSplit.AllDone | foreign/date/src/tz.cpp:1355-1366 | when the outer loop ends, any two rules have identical or disjoint year ranges, and the whole table is ordered by start year, month and day |
| RuleSplit.KeyOrderIsSorted | foreign/date/src/tz.cpp:1159-1172 | in a table in blocks, order by start year, month and day is order by `operator<` |
| RuleTable.Table.Sort | foreign/date/src/tz.cpp:1362-1363 | `std::sort` by its contract: a sorted permutation of the stretch, nothing else touched |
| RuleTable.Table.Split | foreign/date/src/tz.cpp:1281-1348 | in-place inserts and updates of the five cases yield the cut table, and `e` grows by the pieces inserted |
| RuleTable.Table.SplitFirst | foreign/date/src/tz.cpp:1357-1365 | the inner loop terminates with a growing bound, conserves the table and finishes rule `i`; `overlaps` and `split` are only called as they demand |
| RuleTable.Table.CutOverlaps | foreign/date/src/tz.cpp:1350-1366 | both loops terminate; the table ends in ascending blocks, sorted by `operator<` throughout, and says of every year what it said |
| RuleTable.Table.CanonicalizeDays | foreign/date/src/tz.cpp:1367-1371 | exactly the single-year rules get their year's own date |
| RuleTable.Table.SplitOverlaps | foreign/date/src/tz.cpp:1350-1372 | blocks, same name, same rule-years, no new years; the effects of all years are the same exactly when in every year isolated by the cuts the rules' days lie in that year; months and days as written told the order of moments exactly when tied rules share their moments and the result is in time order |
| RuleOrder.LoneBlock | foreign/date/src/tz.cpp:1350-1366 | in a table in blocks a rule covers a single year exactly when that year and the next are both bounds |
| RuleOrder.TimeOrderIff | foreign/date/src/tz.cpp:1350-1372 | a cut and canonicalized table is in time order, and tied rules share their moments, exactly when keys told the order of moments before |
| RuleOrder.TieGoesEitherWay | foreign/date/src/tz.cpp:1159-1172 | rules that `operator<` cannot tell apart may be swapped, and if their moments differ one of the two tables goes back in time |
| RuleOrder.DaysApartTell | foreign/date/src/tz.cpp:1159-1172 | rules of a year that fall in different months, or on days of a month that cannot cross, have keys that tell the order of moments |
| RuleOrder.SortsByDate | foreign/date/src/tz.cpp:1159-1172 | of rules with the same years, neither a last weekday, the one written with the earlier calendar day sorts first |
| RuleOrder.LastSortsLast | foreign/date/src/tz.cpp:766-767 | of rules with the same years and month, none sorts after a last weekday, and all but the 31st and other last weekdays sort before it |
| RuleOrder.LastFallsLast | foreign/date/src/tz.cpp:868-893 | in every year, days up to the 22nd resolve to no later than any last weekday of their month |
| RuleOrder.LastStandsLast | foreign/date/src/tz.cpp:1350-1366 | in a sorted table in blocks, a last weekday stands behind such days of its month, as it falls |
| RuleTable.CanonicalBlocks | foreign/date/src/tz.cpp:1367-1371 | the last loop keeps blocks and rule-years, and keeps all effects exactly when days of isolated years lie in them |
| RuleDatabase.NameEnd | foreign/date/src/tz.cpp:1380-1385 | `upper_bound` by name finds where the rules of a name end |
| RuleDatabase.NameLessIff | foreign/date/src/tz.cpp:1380-1385 | names compare by their first difference, a beginning before the whole |
| RuleDatabase.TrimFront | foreign/date/src/tz.cpp:1387-1397 | drops only rules that end before the first year, keeps at most one such, and where it drops any the first one kept has begun by then |
| RuleDatabase.TrimBack | foreign/date/src/tz.cpp:1398-1406 | drops exactly the rules that start after the last year |
| RuleDatabase.NothingTrimmed | foreign/date/src/tz.cpp:1387-1406 | neither drops a rule whose years `year` can hold |
| RuleDatabase.SplitTable | foreign/date/src/tz.cpp:1374-1410 | on a sorted table every name's rules end in blocks with their rule-years, keep their effects and are in time order exactly under the conditions above, and names stay together |
| RuleDatabase.RunIsStretch | foreign/date/src/tz.cpp:1374-1410 | in the split table a maximal run of one name is a stretch the walk functions can step through |
| RuleDatabase.SplitWalkInTimeIff | foreign/date/src/tz.cpp:1446-1511 | after the split, the walk through a name goes forward in time, and tied rules share their moments, exactly when keys told the order of moments in the original rules |
| RuleWalk.NextIsNext | foreign/date/src/tz.cpp:1446-1477 | on a table in blocks the next rule and year is the immediate successor by year, then position; none exactly at the end |
| RuleWalk.PreviousIsPrevious | foreign/date/src/tz.cpp:1412-1444 | the previous rule and year is the immediate predecessor; the program terminates only for the very first |
| RuleWalk.PreviousInvertsNext | foreign/date/src/tz.cpp:1412-1511 | `find_previous_rule` inverts each step of `find_next_rule`, and the other way round |
| RuleWalk.WalkVisitsAll | foreign/date/src/tz.cpp:1446-1511 | from the first rule and its start year the walk ends, and visits every rule in every one of its years exactly once, in order |
| RuleWalk.WalkInTimeIff | foreign/date/src/tz.cpp:1446-1511 | the walk is chronological exactly when the table is in time order |
| RuleWalk.NextCanGoBack | foreign/date/src/tz.cpp:1446-1477 | a sorted table on which the next rule lies two days before the current one |
| RuleWalk.FindNextRuleIn | foreign/date/src/tz.cpp:1455-1477 | the loop to the front of the block computes the successor |
| RuleWalk.FindNextRule | foreign/date/src/tz.cpp:1486-1511 | the version that recognises the ends by the name computes the same successor |
| RuleWalk.FindPreviousRule | foreign/date/src/tz.cpp:1419-1444 | the loop to the end of the block computes the predecessor |
| PosixZone.WeekdayRuleMeans | foreign/date/include/date/ptz.h:107-109 | `Mm.n.d` is the n-th such weekday of the month, or the last for n = 5 |
| PosixZone.JulianSkipsLeapDay | foreign/date/include/date/ptz.h:104-106 | `Jn` is the same month and day in every year, the n-th day of common years, at its time of day |
| PosixZone.ZeroBasedMeans | foreign/date/include/date/ptz.h:110-112 | `n` counts days from 1 January, 29 February included, at its time of day |
| PosixZone.DstInterval | foreign/date/include/date/ptz.h:221-231 | every time from a start to the next end has exactly that interval, the daylight offset and name, and the saving rounded up to minutes |
| PosixZone.StdInterval | foreign/date/include/date/ptz.h:232-244 | every time from an end to the next start, across New Year, has exactly that interval, the standard offset and name, and no saving |
| PosixZone.TilingIff | foreign/date/include/date/ptz.h:211-253 | the intervals tile the time line exactly when daylight saving starts before it ends in every year |
| PosixZone.ClassificationIff | foreign/date/include/date/ptz.h:255-332 | for zones clear of year boundaries, nonexistent, unique and ambiguous mean no, one and two instants for all local times exactly when the saving is zero or daylight saving lasts at least as long as the clock is moved in every year |
| PosixZone.LocalInfoIsSysInfo | foreign/date/include/date/ptz.h:255-332 | the information for a local time is that of its instants, earlier first; for a gap, that of the moments before and at the transition |
| PosixZone.ToSysToLocal | foreign/date/include/date/ptz.h:334-374 | `to_sys(to_local(t), z)` is t for one of the choices; without a choice it is t or reports ambiguity |
| PosixZone.AnswersAreInstants | foreign/date/include/date/ptz.h:347-363 | both choices read as the local time again, and earliest precedes latest when it is ambiguous |
| PosixZone.GapAnswer | foreign/date/include/date/ptz.h:347-363 | for a local time that no instant reads as, both choices give the moment at which the clock jumps over it, where an interval begins |
| PosixZone.ToSysTells | foreign/date/include/date/ptz.h:334-345 | without a choice, the one instant, nonexistent exactly if there is none, ambiguous exactly if there are two |
| PosixZone.ClockChangesIn | foreign/date/include/date/ptz.h:211-253 | the clock goes to daylight time when it is about to show the start rule's time, and back when about to show the end rule's |
| PosixZone.NorthernZone | foreign/date/include/date/ptz.h:211-332 | zones with weekday rules that start in February or later, end by November and have a whole month between meet every condition above, and their clocks change at the rules' times |
| PosixZone.SouthernZone | foreign/date/include/date/ptz.h:211-332 | zones with weekday rules that end in February or later and start again by November, a whole month between, never report daylight time, do not tile, and misjudge some local time exactly when the saving is not zero |
| LightPacket.ParseLightPacket | valoserveri/LightPacket.cpp:7-57 | any byte sequence is read in bounds and yields its tag and the lights of its records, as defined independently of the loops |
| LightPacket.RejectsOthers | valoserveri/LightPacket.cpp:10-23 | packets that are too short, of another version or without a tag marker yield nothing |
| LightPacket.TagAndRecords | valoserveri/LightPacket.cpp:25-35 | the tag ends at the first zero byte and records follow; without one there is no tag and records start at the fourth byte |
| LightPacket.RecordsExactly | valoserveri/LightPacket.cpp:35-54 | the lights found are those of the complete type-1 records, one for each and in their order |
| LightPacket.RecordsAreNameable | valoserveri/LightPacket.cpp:45-46 | no byte sequence names a light from 128 to 2^32 - 129 |
| LightPacket.ParseEncodeIff | use_examples/instanssiController.py:21-41 | an encoded packet parses to the same nick and lights exactly when the nick is zero-free and all indices are below 128 |
| LightPacket.EncodeLayout | use_examples/instanssiController.py:21-41 | where each byte of an encoded packet stands |
| LightPacket.Instanssi.constructor | use_examples/instanssiController.py:13-19 | starts with an empty packet for the nick |
| LightPacket.Instanssi.Reset | use_examples/instanssiController.py:21-29 | the packet encodes the nick and no lights |
| LightPacket.Instanssi.Set | use_examples/instanssiController.py:32-41 | one light is added at the end |
| LightPacket.Instanssi.Send | use_examples/instanssiController.py:43-47 | sends the encoding of nick and lights and resets, or fails and keeps the packet when a value is no byte |
| Dmx.ParseLights | valoserveri/DMXController.cpp:28-63 | lights get the numbers 0 to n-1 with defaults and byte truncation; fails exactly when some type is bad |
| Dmx.LightOf | valoserveri/DMXController.cpp:16-63 | type, address and channels of a light from its settings: "rgb" or "uv" to the letter, defaults, numbers modulo 256 |
| Dmx.IntensityOfGrey | valoserveri/DMXController.cpp:144-150 | the UV intensity fits a byte and equals v for grey v |
| Dmx.PaintShows | valoserveri/DMXController.cpp:134-152 | after painting, the five bytes of an RGB light are red, green, blue, 255 and 0, and those of a UV light the weighted sum over 256 and 0; header and terminator stay, whatever the address |
| Dmx.PaintKeepsRest | valoserveri/DMXController.cpp:134-152 | every other byte is unchanged |
| Dmx.PaintKeepsOthers | valoserveri/DMXController.cpp:134-152 | lights on other channels show what they showed |
| Dmx.PaintSpoils | valoserveri/DMXController.cpp:134-152 | of two lights sharing a channel, painting the one at the later address spoils the other |
| Dmx.DMXController.constructor | valoserveri/DMXController.cpp:66-79 | the frame starts as header, dark channels and terminator |
| Dmx.DMXController.SetLightColor | valoserveri/DMXController.cpp:127-153 | the in-place writes leave the bytes of the colour at the light's address and all others alone, an unknown index changes nothing, and the frame stays well formed |
| Dmx.DMXController.Update | valoserveri/DMXController.cpp:156-160 | the device is told the whole current frame |
| Serveri.HexColorReads | valoserveri/serveri.cpp:393-396 | the text of a colour is red, green and blue in two hexadecimal digits each |
| Serveri.HexColorInjective | valoserveri/serveri.cpp:393-396 | the text of a colour determines the colour |
| Serveri.AllowedAre | valoserveri/serveri.cpp:28 | the whitelist holds letters but for the capital I, digits, zero, blank and the listed punctuation |
| Serveri.FilterTagKeepsAllowed | valoserveri/serveri.cpp:444-455 | a filtered tag is the whitelisted characters of the tag, each occurrence and in order |
| Serveri.StepInv | valoserveri/serveri.cpp:169-558 | every packet, callback and end of loop keeps the server's invariant |
| Serveri.RunKnows | valoserveri/serveri.cpp:169-200 | told by the events alone: the monitors are the connections established and not closed since, first messages are due until written, news is what arrived since the last loop end, the tag is the filtered one of the last packet, and the device is written once for each loop end with news |
| Serveri.DarkAtFirst | valoserveri/serveri.cpp:206-269 | at the start snapshot, message and frame are dark |
| Serveri.WriteDelivers | valoserveri/serveri.cpp:187-192 | a write hands the monitor the message of that moment |
| Serveri.NoLostUpdate | valoserveri/serveri.cpp:438-560 | in every run, always: there is news, or the message renders snapshot and last tag and the device has the frame; every connection established and not closed has a write due or the current message, and until its first message the write; no light is added or lost |
| Serveri.RunShowsLast | valoserveri/serveri.cpp:460-470 | over any run with separate channels for the lights packets can name, snapshot and frame show the last colour given for each light |
| Serveri.ShowsLastIff | valoserveri/serveri.cpp:460-470 | that holds in all runs exactly when the lights packets can name have separate channels |
| Serveri.OutOfReachStaysBlack | valoserveri/serveri.cpp:460-470 | a configured light that packets cannot name stays black in every run |
| Serveri.DeliveredAtEndOfLoop | valoserveri/serveri.cpp:538-558 | at each end of the loop the bytes last written show the last colour given, the message names it and the last tag for all lights, and every connected monitor has it or is about to |
| Serveri.ConfiguredLightsAreNumbered | valoserveri/serveri.cpp:222-228 | lights numbered 0 to n-1 have no gap, as rendering relies on |
| Serveri.EncodedIsShown | valoserveri/serveri.cpp:438-560 | what a client encodes, byte by byte, is in the bytes of the device after the loop, whatever happened before |
| ServeriLoop.Server.constructor | valoserveri/serveri.cpp:206-269 | starts dirty with every configured light black and its message rendered |
| ServeriLoop.Server.UpdateMonitorMessage | valoserveri/serveri.cpp:387-401 | the message renders the snapshot, and reading through `operator[]` inserts nothing |
| ServeriLoop.Server.LightPacket | valoserveri/serveri.cpp:438-474 | the fields take the state machine's packet step |
| ServeriLoop.Server.OnEstablished | valoserveri/serveri.cpp:175-180 | the connection is a monitor and its write is due; the fields take the step |
| ServeriLoop.Server.AddMonitor | valoserveri/serveri.cpp:404-419 | a new connection is added, a known one keeps its address |
| ServeriLoop.Server.OnClosed | valoserveri/serveri.cpp:182-185 | the connection is no monitor; the fields take the step |
| ServeriLoop.Server.DeleteMonitor | valoserveri/serveri.cpp:422-432 | the connection is gone afterwards, known or not |
| ServeriLoop.Server.OnWriteable | valoserveri/serveri.cpp:187-192 | the monitor is sent the current message |
| ServeriLoop.Server.EndLoop | valoserveri/serveri.cpp:538-558 | the frame is written exactly when there was news; the fields take the end-of-loop step |
| ServeriLoop.Server.RunLoop | valoserveri/serveri.cpp:477-560 | any number of iterations is the state machine's run on their events in order |
| ServeriLoop.WhitelistedTag | valoserveri/serveri.cpp:443-456 | the erasing loop computes the filtered tag |
| Docopt.ReplacementExpands | foreign/fmt/support/docopt.py:84-93 | replacing a group keeps its cases |
| Docopt.ReplacementIsLighter | foreign/fmt/support/docopt.py:84-93 | replacing a group lowers the total weight although children are duplicated |
| Docopt.ExpandOffers | foreign/fmt/support/docopt.py:72-78 | the expansion holds exactly the cases a pattern offers: one leaf, a case of an alternative, or one case of each child, twice so for what may be repeated |
| Docopt.DocumentedExamples | foreign/fmt/support/docopt.py:75-76 | the three examples of the documentation |
| Docopt.Transform | foreign/fmt/support/docopt.py:72-96 | terminates with a single choice of leaf-only cases whose multiset equals the recursive expansion of the pattern |
| Ini.ErrorIsFirstMalformed | foreign/inih/INIReader.h:237-264 | the return value is the number of the first malformed line, or 0 if there is none |
| Ini.MalformedIff | foreign/inih/INIReader.h:208-264 | a line is malformed exactly when it is not blank, a comment or a continuation, and lacks its bracket or separator before any comment |
| Ini.FindStopFirst | foreign/inih/INIReader.h:140-158 | the search ends at the first stop character or semicolon after white space |
| Ini.SpaceCodes | foreign/inih/INIReader.h:123-138 | white space is character 9 to 13 or 32 |
| IniFile.LineMeans | foreign/inih/INIReader.h:196-265 | blank and comment lines say nothing, and headers, names with values and further lines say what they do, with any white space, either separator, inline comments and a byte order mark |
| IniFile.LinesExactly | foreign/inih/INIReader.h:196 | lines are the pieces of a file in order, each up to its newline, 199 characters or the end |
| IniFile.FinalNewline | foreign/inih/INIReader.h:196-265 | whether a file ends with a newline makes no difference |
| IniBuffer.Rstrip | foreign/inih/INIReader.h:123-130 | the NULs written leave the string without trailing white space, and the rest of the buffer alone |
| IniBuffer.Lskip | foreign/inih/INIReader.h:132-138 | the pointer moves to the string without leading white space |
| IniBuffer.FindCharsOrComment | foreign/inih/INIReader.h:140-158 | the pointer moves to the first stop character or inline comment |
| IniBuffer.INIReader.ValueHandler | foreign/inih/INIReader.h:450-460 | a value is stored, or added on a new line, under its lower-case key |
| IniBuffer.INIReader.ParseLine | foreign/inih/INIReader.h:196-265 | the loop body on the buffer does what the line means |
| IniBuffer.INIReader.ParseStream | foreign/inih/INIReader.h:168-278 | error, values and sections after any file are those of its lines in order |
| IniRoundTrip.ValueUnderKey | foreign/inih/INIReader.h:450-460 | for any file, repeated names included, `Get` returns all lines set for the key, one below the other, or the default if there are none |
| IniRoundTrip.RoundTrip | foreign/inih/INIReader.h:196-265 | any file of such lines parses with error 0 and its sections, and `Get` returns all of each value exactly when no entry of several lines has a name of 50 or more characters |
| IniRoundTrip.SampleLight | foreign/inih/INIReader.h:395-399 | the type is read from `type = uv ;dim` as `uv`, under names in another case |
| IniRoundTrip.OtherKeysAreDefault | foreign/inih/INIReader.h:395-399 | `Get` returns the default for any key that was not written |
| IniRoundTrip.KeysAreCaseInsensitive | foreign/inih/INIReader.h:442-448 | two keys are equal exactly when section and name agree up to letter case |

## Left out

- Years are unbounded integers: the narrowing of `year` to 16 bits, `year::ok` and overflow of `int` day numbers are not modelled.
- `find_rule`, `get_info_impl`, `MonthDayTime::compare` and `to_sys` of tz.cpp: they depend on assumptions about the tz data.
- Database loading, download, TZif reading, `current_zone`, and all text input and output of the date library.
- Time order of rules compares moments as written on the rules' own clocks: converting between UTC, standard and local time needs the offset of a zone, which rules do not know.
- PosixZone.ClassificationIff: does not say which of the boundary conditions are necessary; zones with transitions at year boundaries are not covered.
- POSIX zones without rules (a constant offset), time points finer than seconds, and the reader of TZ strings.
- The constants of `NorthernZone` and `SouthernZone` (at most a week of offset, saving and time of day) are wider than any zone in use.
- Sockets, `poll`, the descriptor list, serial settings, logging and libwebsockets itself: they appear as events, and as ghost values for what was written and sent.
- JSON text: the monitor message is its tag and hex colours; its number of lights is the number of colours.
- ServeriLoop.Server.RunLoop: runs a given finite number of iterations where the program runs forever; errors of `poll` and `recvfrom` are not modelled.
- Reading numbers from the configuration (`std::stoi` and its exceptions): a light's settings are given as numbers or absent.
- Opening the INI file (return value -1), and the typed getters beside `Get`.
- docopt beyond `transform`: parsing of usage text and matching of arguments.
- The libwebsockets plugins and test programs, the fmt and span sources, build scripts and browser code.
