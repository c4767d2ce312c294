# Geofence fleet-unavailability estimator, in Dafny

The Geofence program reads, for a fleet of vehicles, the periods during
which each vehicle was inside a geofence. It then asks how many business
hours per week the geofence would have no vehicle in it if the fleet were
reduced one vehicle at a time. This project models the three layers of that
estimator and proves what each one computes.

- **Per-week coverage sampler** (`CalculateWeekHoursOfUnavailability`,
  module `Coverage`). It anchors on the Monday on or before the earliest
  enter time of the week's records. It samples Monday to Friday every 15
  minutes, from 08:30 up to but not including 17:00: 34 instants a day, 170
  a week. It counts the instants that no record covers. A record covers an
  instant when `EnterTime <= t <= ExitTime`, both ends included.
- **Removal simulator** (`CalculateHoursOfUnavailability`, modules `Fleet`
  and `Simulator`). It sells `soldCount` vehicles one at a time: each step
  deletes every record of the first distinct vehicle id still in the copy.
  It groups what remains by a Monday-first week number and sums the
  per-week results. Every week of the original data that lost all its
  records is charged a full 42.5 h.
- **Driver loop** (`GetAverageUnavailability`, module `Driver`). For
  `soldCount` from 0 to the number of vehicles, it divides the simulator's
  total by the number of Sunday-first weeks in the unmodified data.

Representation:
- Timestamps are whole minutes since 0001-01-01 00:00. That is .NET's
  `DateTime` epoch, and it fell on a Monday. Weekdays use .NET's
  `DayOfWeek` numbering, Sunday = 0 to Saturday = 6 (module `Calendar`).
- Durations are counted in quarter hours: one uncovered sample is 0.25 h,
  and 42.5 h is 170 units. Only the final average is a `real`.
- The record type mirrors `GeofencePeriod`: vehicle id, enter time, exit
  time (module `Periods`).
- `Fleet.DistinctIds` is `Select(v => v.VehicleId).Distinct()` (lines 31 and 77), the composition of `Seqs.Distinct` with `Fleet.Ids`. `Simulator.Weeks` lists the `GroupBy` keys (lines 73 and 82), the composition of `Seqs.Distinct` with `Simulator.WeekNumbers`.
- `GetWeekOfYear` depends on the culture's calendar, so both week-numbering
  rules are parameters of type `Minute -> int`.

Facts about the program that the model keeps as they are:
- The sampling loop runs from 08:30 to before 17:00 in 15-minute steps, so
  it visits 34 instants a day (`Coverage.DaySamplesShape`).
- `GetAverageUnavailability` has no guard for an empty data set. With no
  records it divides 0 by 0. The model requires a non-empty data set for the
  average.
- The driver counts weeks Sunday-first and the simulator counts them
  Monday-first. The model keeps that mismatch. The average is proved to stay
  within 42.5 h when both rules count the same weeks
  (`Driver.AverageWithinWeek`). `Driver.MismatchedWeeksExceedWeek` shows
  data for which the two counts differ and the reported average is 85 h.
- The `OrderBy` on enter time decides which vehicle is sold first: the first
  vehicle sold is that of an earliest-entering record
  (`Driver.FirstSoldEntersFirst`).

## Model

| member | source | states |
|---|---|---|
| Calendar.DayOf | Geofence/Geofence.cs:103 | `.Date`: the day holding a timestamp starts at or before it and ends after it |
| Calendar.Midnight | Geofence/Geofence.cs:103 | `.Date`: midnight of a day lies in that day |
| Calendar.Weekday | Geofence/Geofence.cs:104-108 | `DayOfWeek`: a value from Sunday (0) to Saturday (6), Monday on the epoch day and every seventh day from it |
| Calendar.WeekdayNext | Geofence/Geofence.cs:108 | `AddDays(1)` moves to the next weekday, Saturday to Sunday |
| Calendar.WeekdayPrevious | Geofence/Geofence.cs:106 | `AddDays(-1)` moves to the previous weekday, Sunday to Saturday |
| Calendar.DaysSinceMonday | Geofence/Geofence.cs:104-107 | the backward walk takes 0 to 6 steps, none exactly when the day is a Monday |
| Calendar.AnchorWalkLength | Geofence/Geofence.cs:104-107 | the backward walk ends exactly `DaysSinceMonday(day)` days before its start |
| Calendar.MondayOnOrBefore | Geofence/Geofence.cs:103-107 | the backward walk stops at a Monday that is at most 6 days before the start day, with no Monday in between |
| Calendar.WeekdaysFrom | Geofence/Geofence.cs:108-110 | the day loop visits consecutive days from its start while the weekday is at most Friday, each weekday one more than the last |
| Calendar.MondayToFriday | Geofence/Geofence.cs:108-110 | started on a Monday, the day loop visits exactly the five days Monday to Friday |
| Seqs.Distinct | Geofence/Geofence.cs:77 | `Distinct()`: no duplicates, the same members as the input, first element kept first |
| Coverage.AnyCovers | Geofence/Geofence.cs:120 | an instant counts as available iff some record of the week has enter time <= t <= exit time |
| Coverage.Covers | Geofence/Geofence.cs:120 | a record covers an instant only if its enter time is at most its exit time, and such a record covers its own enter and exit instants |
| Coverage.EndpointsCovered | Geofence/Geofence.cs:120 | both ends are inclusive: a record's own enter and exit instants are covered |
| Coverage.SamplesFrom | Geofence/Geofence.cs:117 | the interval loop visits start + 15 j, every visited instant is before the end, and the next step would reach the end |
| Coverage.DaySamples | Geofence/Geofence.cs:113-117 | every instant sampled on a day is at or after 08:30 and before 17:00 of that day |
| Coverage.DaySamplesShape | Geofence/Geofence.cs:113-117 | each business day is sampled 34 times, at 08:30 + 15 j |
| Coverage.DaySampleMembership | Geofence/Geofence.cs:113-117 | an instant is sampled on a day iff it is a quarter hour from 08:30 on and before 17:00 |
| Coverage.SamplingBoundaries | Geofence/Geofence.cs:113-117 | 08:30 and 16:45 are sampled, 17:00 is not |
| Coverage.UncoveredCount | Geofence/Geofence.cs:117-127 | the number of uncovered samples is at most the number of samples |
| Coverage.UncoveredCountZero | Geofence/Geofence.cs:120-126 | nothing is added iff every sample is covered |
| Coverage.UncoveredCountFull | Geofence/Geofence.cs:120-126 | every sample adds 0.25 h iff no sample is covered |
| Coverage.UncoveredCountAppend | Geofence/Geofence.cs:117-127 | counting the uncovered samples of two runs of instants adds up |
| Coverage.UncoveredCountAntitone | Geofence/Geofence.cs:120-126 | a subset of the records leaves at least as many samples uncovered |
| Coverage.SamplesOfDays | Geofence/Geofence.cs:108-117 | the days' samples, 34 per day, are exactly the instants sampled on one of the days |
| Coverage.UncoveredOnDays | Geofence/Geofence.cs:108-127 | the day loop adds at most 34 quarter hours for each day it visits |
| Coverage.UncoveredOnDaysFlat | Geofence/Geofence.cs:108-127 | summing day by day equals counting over all the days' samples at once |
| Coverage.WeekSamplesShape | Geofence/Geofence.cs:108-117 | a week from a Monday has 170 samples, exactly the sample instants of Monday to Friday |
| Coverage.UncoveredInWeek | Geofence/Geofence.cs:108-127 | the week's uncovered count is at most 170 (42.5 h) and counts the week's samples that no record covers |
| Coverage.WeekFullyCovered | Geofence/Geofence.cs:108-127 | a week has no unavailability iff every weekly sample instant is covered |
| Coverage.WeekFullyUncovered | Geofence/Geofence.cs:108-127 | a week is fully unavailable (170) iff no weekly sample instant is covered |
| Coverage.EmptyWeekIsUnavailable | Geofence/Geofence.cs:108-127 | with no records every weekly sample is uncovered |
| Coverage.SpanningRecordCoversWeek | Geofence/Geofence.cs:108-127 | one record from Monday 08:30 to Friday 16:45 leaves nothing uncovered |
| Coverage.WeekUncoveredAntitone | Geofence/Geofence.cs:120-126 | for a fixed Monday, removing records never lowers the week's uncovered count |
| Coverage.MinEnter | Geofence/Geofence.cs:103 | `Min`: an enter time of the week, at most every enter time |
| Coverage.WeekAnchor | Geofence/Geofence.cs:103-107 | the anchor is a Monday, at most 6 days before the day of the earliest enter time, at midnight no later than it |
| Coverage.WeekUnavailability | Geofence/Geofence.cs:98-133 | a week's result is at most 170 units (42.5 h) and counts the uncovered samples of the week from its anchor Monday |
| Fleet.Ids | Geofence/Geofence.cs:77 | `Select(v => v.VehicleId)`: one id per record, in order |
| Fleet.RemoveVehicleIds | Geofence/Geofence.cs:77-78 | after `RemoveAll` the ids are the old ids with that vehicle's dropped |
| Fleet.RemoveVehicle | Geofence/Geofence.cs:78 | `RemoveAll` never makes the copy longer |
| Fleet.Without | Geofence/Geofence.cs:71-79 | reference filter for the removal loop: never longer than the input |
| Fleet.WithoutMembers | Geofence/Geofence.cs:71-79 | the filter keeps exactly the records whose vehicle is not sold |
| Fleet.WithoutNothing | Geofence/Geofence.cs:71 | selling nothing leaves the copy equal to the input |
| Fleet.RemoveVehicleIsWithout | Geofence/Geofence.cs:78 | `RemoveAll` for one id is the filter by that one id |
| Fleet.WithoutTwice | Geofence/Geofence.cs:75-79 | two removal rounds equal one removal of both sets of vehicles |
| Fleet.WithoutAppend | Geofence/Geofence.cs:75-79 | the surviving records keep their relative order |
| Fleet.WithoutEveryVehicle | Geofence/Geofence.cs:75-79 | removing every vehicle of the data leaves no record |
| Fleet.RemoveFirstVehicle | Geofence/Geofence.cs:77-78 | the vehicle removed is the copy's first record's, and it leaves the front of the fleet |
| Fleet.SellFirstStep | Geofence/Geofence.cs:75-79 | one step removes one vehicle and the loop continues on the smaller copy |
| Fleet.SellFirstCompletes | Geofence/Geofence.cs:75-79 | with at least `soldCount` vehicles the loop ends without `First()` throwing |
| Fleet.SellFirstFails | Geofence/Geofence.cs:75-79 | with fewer vehicles than `soldCount`, `First()` throws on the empty copy |
| Fleet.SellFirstSucceeds | Geofence/Geofence.cs:75-79 | the loop completes iff `soldCount` is at most the number of distinct vehicles |
| Fleet.SellNothing | Geofence/Geofence.cs:75 | with `soldCount` 0 the loop body never runs and the copy is the input |
| Fleet.SoldAfterFirst | Geofence/Geofence.cs:75-78 | the vehicles sold are the copy's first vehicle and those sold afterwards from what is left |
| Fleet.SoldCount | Geofence/Geofence.cs:75-79 | `soldCount` iterations sell exactly `soldCount` different vehicles |
| Fleet.SellFirstIsProjection | Geofence/Geofence.cs:71-79 | after k steps the copy is the input without the records of the first k distinct vehicle ids |
| Fleet.Remaining | Geofence/Geofence.cs:71-79 | the copy is that projection and holds only records of the input, which itself is not changed |
| Fleet.SellWholeFleet | Geofence/Geofence.cs:75-79 | selling every vehicle leaves an empty copy |
| Simulator.WeekNumbers | Geofence/Geofence.cs:82 | the week key of each record is computed from its enter time |
| Simulator.WeekNumbersOfRecords | Geofence/Geofence.cs:82 | every record's week key is one of the keys of the data |
| Simulator.WeekCount | Geofence/Geofence.cs:72-74 | `GroupBy(...).Count()` is at most the number of records and zero only for no records |
| Simulator.WeekGroup | Geofence/Geofence.cs:82 | a group holds exactly the records whose enter time falls in that week |
| Simulator.WeekGroupNonEmpty | Geofence/Geofence.cs:82-86 | every group the `foreach` visits has a record, so `Min` is defined |
| Simulator.SumOfWeeks | Geofence/Geofence.cs:84-87 | the sum over the groups is at most 42.5 h per week |
| Simulator.RemainingWeeks | Geofence/Geofence.cs:72-82 | selling vehicles never adds a week: remaining weeks <= original weeks |
| Simulator.RemainingWeekNumbers | Geofence/Geofence.cs:72-82 | every week key of the copy is a week key of the original data |
| Simulator.HoursOfUnavailability | Geofence/Geofence.cs:68-96 | the simulator's total is at most 42.5 h for each week of the original data |
| Simulator.TotalByOriginalWeek | Geofence/Geofence.cs:82-93 | the total is the sum, over every week of the original data, of that week's group result while the week still has records and 170 units (42.5 h) once it has none |
| Simulator.VanishedWeeksCharged | Geofence/Geofence.cs:89-93 | the total is at least 42.5 h for each week that vanished |
| Simulator.WeekCharge | Geofence/Geofence.cs:84-93 | what one original week contributes: at most 170 units, and exactly 170 once no record of the copy falls in it |
| Simulator.ChargeOfWeeks | Geofence/Geofence.cs:84-93 | the contributions of a list of weeks are at most 170 units per week |
| Simulator.VanishedWeekIsEmptyWeek | Geofence/Geofence.cs:89-93 | a vanished week has an empty group, and its 170 units are exactly what the sampler counts for no records from any Monday |
| Simulator.ChargeOfPresentWeeks | Geofence/Geofence.cs:84-87 | over weeks that all still have records, the contributions are the `foreach` sum of the group results |
| Simulator.ChargeOfDrop | Geofence/Geofence.cs:84-87 | one week's contribution can be taken out of the sum wherever it is listed |
| Simulator.ChargeOfReordered | Geofence/Geofence.cs:84-87 | the sum does not depend on the order in which `GroupBy` lists the weeks |
| Simulator.ChargeOfSplit | Geofence/Geofence.cs:89-93 | the contributions split into those of the weeks still present plus 170 units for each week that vanished |
| Simulator.NothingSold | Geofence/Geofence.cs:68-96 | with nothing sold no week is backfilled |
| Simulator.WholeFleetSold | Geofence/Geofence.cs:72-93 | with every vehicle sold the total is exactly 42.5 h times the original week count |
| Driver.AverageOfUnits | Geofence/Geofence.cs:39 | an average of at most 42.5 h per full week, over the counted weeks, is non-negative and bounded by 42.5 h times their ratio |
| Driver.FullWeekIsMaxHours | Geofence/Geofence.cs:13 | one unit is the 0.25 h of line 125, and 170 units are `MAX_HOURS_PER_WEEK`, 42.5 h |
| Driver.WeekRatio | Geofence/Geofence.cs:33-39 | for non-empty data the Monday-first to Sunday-first week ratio is positive |
| Driver.AverageHours | Geofence/Geofence.cs:33-39 | the average of line 39 is never negative |
| Driver.AverageBounds | Geofence/Geofence.cs:33-39 | every reported average is between 0 and 42.5 h times (Monday-first weeks / Sunday-first weeks) |
| Driver.AverageWithinWeek | Geofence/Geofence.cs:33-39 | when both week rules count the same weeks, every average is within 0 .. 42.5 h |
| Driver.AverageWholeFleetSold | Geofence/Geofence.cs:31-39 | the last row, whole fleet sold, is 42.5 h times the ratio of the week counts |
| Driver.Rows | Geofence/Geofence.cs:31-41 | the report has one row for each `soldCount` so far |
| Driver.RowsContents | Geofence/Geofence.cs:31-41 | row i reports `soldCount` i and its average |
| Driver.ReportRows | Geofence/Geofence.cs:31-41 | the full report has a row for every soldCount 0 .. number of vehicles, each within 0 .. 42.5 h times the week ratio, the last exactly 42.5 h times that ratio |
| Driver.ReportLoop | Geofence/Geofence.cs:31-42 | the `for` loop appends one row per soldCount and stops after the row for the whole fleet |
| Driver.AverageUnavailability | Geofence/Geofence.cs:28-42 | `soldCount` runs over 0 .. number of vehicles inclusive; each row is that count's average, bounded as above, and the last is the whole-fleet value |
| Driver.SortedFirstIsEarliest | Geofence/Geofence.cs:28 | after `OrderBy`, the first record enters no later than any other |
| Driver.FirstSoldEntersFirst | Geofence/Geofence.cs:28 | after `OrderBy`, the first vehicle the loop of line 77 sells is that of an earliest-entering record |
| Driver.MondayWeekOfYearOne | Geofence/Geofence.cs:73 | in year 0001, the Monday-first key of a timestamp is the week that starts on a Monday and holds its day |
| Driver.SundayWeekOfYearOne | Geofence/Geofence.cs:33 | in year 0001, the Sunday-first key of a timestamp is the week that starts on a Sunday and holds its day |
| Driver.MismatchedWeeksExceedWeek | Geofence/Geofence.cs:33-39 | with Sunday-first and Monday-first week counts that differ, the reported average can reach 85 h, above 42.5 h |

## Left out

- `ParseCSV` (file reading, `int.Parse`, `DateTime.ParseExact`): the model starts from the parsed sequence of records.
- The report text (the header line and one tab-separated line per row): `Driver.AverageUnavailability` returns the rows as `ReportLine` values.
- `GetWeekOfYear`: culture-dependent and without a year component, so both week-numbering rules are parameters. `Driver.MondayWeekOfYearOne` and `Driver.SundayWeekOfYearOne` give them concretely only for dates of the year 0001.
- Driver.AverageUnavailability: requires its input to be sorted by enter time already, in place of the stable `OrderBy` on line 28.
- Driver.AverageUnavailability: requires a non-empty data set. The program then computes 0 / 0, a `double` NaN; the model has no NaN.
- Floating-point rounding: the `double` sums add 0.25 and 42.5 times a whole count, which a `double` holds exactly, so integer quarter-hour counts lose nothing there. The only rounding in the program is the division at line 39 and the formatting of `{averageHours}` at line 41; the model divides exactly in `real` and does not format.
- `DateTime` arithmetic (`AddDays`, `AddHours`, `AddMinutes`, `.Date`): integer-minute arithmetic, with no upper or lower `DateTime` range limit.
- Simulator.HoursOfUnavailability: requires `soldCount` to be at most the number of distinct vehicles; beyond that `First()` throws, which `Fleet.SellFirst` models as `None` (`Fleet.SellFirstSucceeds`).
- Fleet.RemoveVehicle: its own contract states only the length bound; which records it keeps is stated by `Fleet.RemoveVehicleIsWithout`.
- Sub-minute precision: timestamps are whole minutes, while the program parses `HH:mm:ss` (lines 58-59) and compares at tick precision (line 120). Rounding enter times up and exit times down to the minute keeps line 120 exact at the sample instants, which all fall on whole minutes. It can move `DayOf(MinEnter)`, and so the anchor and the week key, for an enter time in the last minute of a day.
- Fleet.SellFirst: carries no contract of its own. What the loop computes is stated by `Fleet.SellFirstSucceeds`, `Fleet.SellFirstStep`, `Fleet.SellNothing` and `Fleet.SellFirstIsProjection`.
- Fleet.Without: its own contract states only the length bound. Which records it keeps is stated by `Fleet.WithoutMembers`.
- `SortedByEnterTime` records the order `OrderBy` gives the input. That order decides the sale order `DistinctIds(xs)`, the vehicle ids by first appearance (`Fleet.SellFirstIsProjection`). For sorted input that is by earliest enter time, with ties left in input order, since `OrderBy` is stable. `Driver.FirstSoldEntersFirst` states this for the first vehicle sold only.
- Monotonicity of the averages in `soldCount` is not stated. Week numbers have no year, so one group can hold records of several years. Its anchor Monday then moves when its earliest record is sold, and the program does not guarantee that the count grows. `Coverage.WeekUncoveredAntitone` states the fixed-anchor part.
