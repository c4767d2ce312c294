/**
  The driver (GetAverageUnavailability): for every number of vehicles sold,
  from none to the whole fleet, the simulator's total divided by the number
  of weeks of the unmodified data. The weeks counted here are Sunday-first
  while the simulator groups Monday-first, as GetAverageUnavailability and
  CalculateHoursOfUnavailability do; the two counts can differ.
*/
module Driver {
  import opened Calendar
  import opened Seqs
  import opened Periods
  import opened Coverage
  import opened Fleet
  import opened Simulator

  /** MAX_HOURS_PER_WEEK. */
  const MaxHoursPerWeek: real := 42.5

  /** Quarter-hour units as hours. */
  function Hours(units: nat): (h: real)
    ensures 4.0 * h == units as real
  {
    units as real / 4.0
  }

  /**
    One sample is the 0.25 h CalculateWeekHoursOfUnavailability adds, and a
    week of 170 samples is MAX_HOURS_PER_WEEK, the 42.5 h charged for a
    vanished week: counting in quarter-hour units loses nothing.
  */
  lemma FullWeekIsMaxHours()
    ensures Hours(1) == 0.25
    ensures Hours(SamplesPerWeek) == MaxHoursPerWeek
  {
  }

  /**
    An average of `units` quarter hours over `weeks` weeks, when `units` is at
    most a full week for each of `fullWeeks` weeks.
  */
  lemma AverageOfUnits(average: real, units: nat, fullWeeks: nat, weeks: nat)
    requires weeks > 0
    requires average == Hours(units) / weeks as real
    requires units <= SamplesPerWeek * fullWeeks
    ensures 0.0 <= average
    ensures average <= MaxHoursPerWeek * (fullWeeks as real / weeks as real)
    ensures units == SamplesPerWeek * fullWeeks ==> average == MaxHoursPerWeek * (fullWeeks as real / weeks as real)
    ensures fullWeeks == weeks ==> average <= MaxHoursPerWeek
  {
    assert average * weeks as real == Hours(units);
  }

  /** The records are in `OrderBy(v => v.EnterTime)` order: each enters no later than the next. */
  predicate SortedByEnterTime(xs: seq<Period>)
  {
    |xs| <= 1 || (xs[0].enterTime <= xs[1].enterTime && SortedByEnterTime(xs[1..]))
  }

  /** In sorted records the first enters no later than any other. */
  lemma {:induction false} SortedFirstIsEarliest(xs: seq<Period>)
    requires |xs| > 0
    requires SortedByEnterTime(xs)
    ensures forall i :: 0 <= i < |xs| ==> xs[0].enterTime <= xs[i].enterTime
  {
    if |xs| > 1 {
      SortedFirstIsEarliest(xs[1..]);
      assert forall i :: 1 <= i < |xs| ==> xs[i] == xs[1..][i - 1];
    }
  }

  /**
    What the sort buys: the first vehicle the simulator sells is the vehicle
    of a record with the earliest enter time.
  */
  lemma FirstSoldEntersFirst(xs: seq<Period>)
    requires |xs| > 0
    requires SortedByEnterTime(xs)
    ensures DistinctIds(xs)[0] == xs[0].vehicleId
    ensures forall i :: 0 <= i < |xs| ==> xs[0].enterTime <= xs[i].enterTime
  {
    RemoveFirstVehicle(xs);
    SortedFirstIsEarliest(xs);
  }

  /** How many Monday-first weeks there are per Sunday-first week of the data. */
  function WeekRatio(xs: seq<Period>, mondayWeek: WeekOfYear, sundayWeek: WeekOfYear): (ratio: real)
    requires |xs| > 0
    ensures 0.0 < ratio
  {
    WeekCount(xs, mondayWeek) as real / WeekCount(xs, sundayWeek) as real
  }

  /**
    The reported average for one number of vehicles sold: the simulator's
    total in hours over the Sunday-first week count of the data.
  */
  function AverageHours(xs: seq<Period>, soldCount: nat, mondayWeek: WeekOfYear, sundayWeek: WeekOfYear): (average: real)
    requires |xs| > 0
    requires soldCount <= |DistinctIds(xs)|
    ensures 0.0 <= average
  {
    var units := HoursOfUnavailability(xs, soldCount, mondayWeek);
    AverageOfUnits(Hours(units) / WeekCount(xs, sundayWeek) as real, units, WeekCount(xs, mondayWeek), WeekCount(xs, sundayWeek));
    Hours(units) / WeekCount(xs, sundayWeek) as real
  }

  /**
    The average is non-negative and, scaled back by the Sunday-first week
    count, at most 42.5 h for each Monday-first week: 42.5 h times the
    ratio of the two week counts.
  */
  lemma AverageBounds(xs: seq<Period>, soldCount: nat, mondayWeek: WeekOfYear, sundayWeek: WeekOfYear)
    requires |xs| > 0
    requires soldCount <= |DistinctIds(xs)|
    ensures 0.0 <= AverageHours(xs, soldCount, mondayWeek, sundayWeek)
    ensures AverageHours(xs, soldCount, mondayWeek, sundayWeek) <= MaxHoursPerWeek * WeekRatio(xs, mondayWeek, sundayWeek)
  {
    AverageOfUnits(AverageHours(xs, soldCount, mondayWeek, sundayWeek),
      HoursOfUnavailability(xs, soldCount, mondayWeek), WeekCount(xs, mondayWeek), WeekCount(xs, sundayWeek));
  }

  /** When both numberings count the same weeks, the average is within 0 .. 42.5 h. */
  lemma AverageWithinWeek(xs: seq<Period>, soldCount: nat, mondayWeek: WeekOfYear, sundayWeek: WeekOfYear)
    requires |xs| > 0
    requires soldCount <= |DistinctIds(xs)|
    requires WeekCount(xs, mondayWeek) == WeekCount(xs, sundayWeek)
    ensures 0.0 <= AverageHours(xs, soldCount, mondayWeek, sundayWeek) <= MaxHoursPerWeek
  {
    AverageOfUnits(AverageHours(xs, soldCount, mondayWeek, sundayWeek),
      HoursOfUnavailability(xs, soldCount, mondayWeek), WeekCount(xs, mondayWeek), WeekCount(xs, sundayWeek));
  }

  /** With the whole fleet sold the average is 42.5 h times the ratio of the two week counts. */
  lemma AverageWholeFleetSold(xs: seq<Period>, mondayWeek: WeekOfYear, sundayWeek: WeekOfYear)
    requires |xs| > 0
    ensures AverageHours(xs, |DistinctIds(xs)|, mondayWeek, sundayWeek) == MaxHoursPerWeek * WeekRatio(xs, mondayWeek, sundayWeek)
  {
    WholeFleetSold(xs, mondayWeek);
    AverageOfUnits(AverageHours(xs, |DistinctIds(xs)|, mondayWeek, sundayWeek),
      HoursOfUnavailability(xs, |DistinctIds(xs)|, mondayWeek), WeekCount(xs, mondayWeek), WeekCount(xs, sundayWeek));
  }

  /** One line of the report: a number of vehicles sold and the average it gives. */
  datatype ReportLine = ReportLine(soldCount: nat, average: real)

  /** The first `n` rows of the report: soldCount 0 .. n - 1 with their averages. */
  function Rows(xs: seq<Period>, n: nat, mondayWeek: WeekOfYear, sundayWeek: WeekOfYear): (rows: seq<ReportLine>)
    requires |xs| > 0
    requires n <= |DistinctIds(xs)| + 1
    ensures |rows| == n
  {
    if n == 0 then [] else Rows(xs, n - 1, mondayWeek, sundayWeek) + [ReportLine(n - 1, AverageHours(xs, n - 1, mondayWeek, sundayWeek))]
  }

  /** Row `i` of the report is soldCount `i` with its average, within the bounds of AverageBounds. */
  lemma {:induction false} RowsContents(xs: seq<Period>, n: nat, mondayWeek: WeekOfYear, sundayWeek: WeekOfYear)
    requires |xs| > 0
    requires n <= |DistinctIds(xs)| + 1
    ensures forall i :: 0 <= i < n ==> Rows(xs, n, mondayWeek, sundayWeek)[i].soldCount == i
    ensures forall i :: 0 <= i < n ==> Rows(xs, n, mondayWeek, sundayWeek)[i].average == AverageHours(xs, i, mondayWeek, sundayWeek)
  {
    if n > 0 {
      var rows := Rows(xs, n - 1, mondayWeek, sundayWeek);
      RowsContents(xs, n - 1, mondayWeek, sundayWeek);
      forall i | 0 <= i < n - 1
        ensures Rows(xs, n, mondayWeek, sundayWeek)[i] == rows[i]
      {
      }
    }
  }

  /**
    The whole report, one row for each soldCount from 0 to the number of
    vehicles: each row's average, its bounds, and the whole-fleet value last.
  */
  lemma ReportRows(xs: seq<Period>, mondayWeek: WeekOfYear, sundayWeek: WeekOfYear)
    requires |xs| > 0
    ensures var report := Rows(xs, |DistinctIds(xs)| + 1, mondayWeek, sundayWeek);
      && (forall i :: 0 <= i < |report| ==> report[i].soldCount == i)
      && (forall i :: 0 <= i < |report| ==> report[i].average == AverageHours(xs, i, mondayWeek, sundayWeek))
      && (forall i :: 0 <= i < |report| ==>
            0.0 <= report[i].average <= MaxHoursPerWeek * WeekRatio(xs, mondayWeek, sundayWeek))
      && report[|report| - 1].average == MaxHoursPerWeek * WeekRatio(xs, mondayWeek, sundayWeek)
  {
    var report := Rows(xs, |DistinctIds(xs)| + 1, mondayWeek, sundayWeek);
    RowsContents(xs, |report|, mondayWeek, sundayWeek);
    forall i | 0 <= i < |report|
      ensures 0.0 <= report[i].average <= MaxHoursPerWeek * WeekRatio(xs, mondayWeek, sundayWeek)
    {
      AverageBounds(xs, i, mondayWeek, sundayWeek);
    }
    AverageWholeFleetSold(xs, mondayWeek, sundayWeek);
  }

  /** The loop of GetAverageUnavailability: one row per soldCount, 0 to the number of vehicles. */
  method ReportLoop(xs: seq<Period>, mondayWeek: WeekOfYear, sundayWeek: WeekOfYear)
    returns (report: seq<ReportLine>)
    requires |xs| > 0
    ensures report == Rows(xs, |DistinctIds(xs)| + 1, mondayWeek, sundayWeek)
  {
    report := [];
    var soldCount := 0;
    while soldCount <= |DistinctIds(xs)|
      invariant soldCount <= |DistinctIds(xs)| + 1
      invariant report == Rows(xs, soldCount, mondayWeek, sundayWeek)
    {
      var average := AverageHours(xs, soldCount, mondayWeek, sundayWeek);
      report := report + [ReportLine(soldCount, average)];
      soldCount := soldCount + 1;
    }
  }

  /**
    GetAverageUnavailability without the report text: one (soldCount,
    average) row for every soldCount from 0 to the number of vehicles.
  */
  method AverageUnavailability(xs: seq<Period>, mondayWeek: WeekOfYear, sundayWeek: WeekOfYear)
    returns (report: seq<ReportLine>)
    requires |xs| > 0
    requires SortedByEnterTime(xs)
    ensures |report| == |DistinctIds(xs)| + 1
    ensures forall i :: 0 <= i < |report| ==> report[i].soldCount == i
    ensures forall i :: 0 <= i < |report| ==> report[i].average == AverageHours(xs, i, mondayWeek, sundayWeek)
    ensures forall i :: 0 <= i < |report| ==>
      0.0 <= report[i].average <= MaxHoursPerWeek * WeekRatio(xs, mondayWeek, sundayWeek)
    ensures report[|report| - 1].average == MaxHoursPerWeek * WeekRatio(xs, mondayWeek, sundayWeek)
  {
    report := ReportLoop(xs, mondayWeek, sundayWeek);
    ReportRows(xs, mondayWeek, sundayWeek);
  }

  /**
    `GetWeekOfYear(t, FirstDay, Monday)` for dates of the year 0001, less
    one: that year starts on a Monday, so week 1 is days 0 .. 6.
  */
  function MondayWeekOfYearOne(t: Minute): (week: int)
    ensures Weekday(7 * week) == Monday
    ensures 7 * week <= DayOf(t) < 7 * week + 7
  {
    DayOf(t) / 7
  }

  /**
    `GetWeekOfYear(t, FirstDay, Sunday)` for dates of the year 0001, less
    one: week 1 is days 0 .. 5 (Monday to Saturday), week 2 starts on the
    Sunday, day 6.
  */
  function SundayWeekOfYearOne(t: Minute): (week: int)
    ensures Weekday(7 * week - 1) == Sunday
    ensures 7 * week - 1 <= DayOf(t) < 7 * week + 6
  {
    var week := (DayOf(t) + 1) / 7;
    assert (7 * week - 1) + 1 == 7 * week;
    week
  }

  /**
    One vehicle present on Sunday 0001-01-07 and Monday 0001-01-08, 09:00
    to 10:00 each day.
  */
  const SundayThenMonday: seq<Period> :=
    [Period(1, Midnight(6) + 540, Midnight(6) + 600), Period(1, Midnight(7) + 540, Midnight(7) + 600)]

  /** The two days fall in two Monday-first weeks. */
  lemma SundayThenMondayMondayWeeks()
    ensures WeekNumbers(SundayThenMonday, MondayWeekOfYearOne) == [0, 1]
    ensures WeekCount(SundayThenMonday, MondayWeekOfYearOne) == 2
  {
    var numbers := WeekNumbers(SundayThenMonday, MondayWeekOfYearOne);
    assert numbers == [0, 1];
    assert Drop(numbers, 0) == [1];
    assert Weeks(SundayThenMonday, MondayWeekOfYearOne) == [0, 1];
  }

  /** The two days fall in one Sunday-first week. */
  lemma SundayThenMondaySundayWeeks()
    ensures WeekNumbers(SundayThenMonday, SundayWeekOfYearOne) == [1, 1]
    ensures WeekCount(SundayThenMonday, SundayWeekOfYearOne) == 1
  {
    var numbers := WeekNumbers(SundayThenMonday, SundayWeekOfYearOne);
    assert numbers == [1, 1];
    assert Drop(numbers, 1) == [];
    assert Weeks(SundayThenMonday, SundayWeekOfYearOne) == [1];
  }

  /**
    The two week numberings disagree: the vehicle of `SundayThenMonday`
    spans two Monday-first weeks but one Sunday-first week, so with the
    vehicle sold the reported average is 85 h, twice the 42.5 h a week can
    hold.
  */
  lemma MismatchedWeeksExceedWeek()
    ensures var xs := SundayThenMonday;
      && SortedByEnterTime(xs)
      && |DistinctIds(xs)| == 1
      && AverageHours(xs, 1, MondayWeekOfYearOne, SundayWeekOfYearOne) == 85.0
      && AverageHours(xs, 1, MondayWeekOfYearOne, SundayWeekOfYearOne) > MaxHoursPerWeek
  {
    var xs := SundayThenMonday;
    assert DistinctIds(xs) == [1];
    SundayThenMondayMondayWeeks();
    SundayThenMondaySundayWeeks();
    assert WeekRatio(xs, MondayWeekOfYearOne, SundayWeekOfYearOne) == 2.0;
    AverageWholeFleetSold(xs, MondayWeekOfYearOne, SundayWeekOfYearOne);
  }
}
