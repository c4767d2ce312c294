/**
  The removal simulator (CalculateHoursOfUnavailability): sell the first
  `soldCount` vehicles of a copy of the data, group what is left by week,
  sum the per-week unavailability, and charge a full 42.5 h for every week
  of the original data that has no record left.

  Week numbers come from the culture's calendar, which the model does not
  have: the week-numbering rule is a parameter.
*/
module Simulator {
  import opened Calendar
  import opened Seqs
  import opened Periods
  import opened Coverage
  import opened Fleet

  /** A week-numbering rule: `GetWeekOfYear` with a fixed first day of the week. */
  type WeekOfYear = Minute -> int

  /** The week number of every record's enter time, in order. */
  function WeekNumbers(xs: seq<Period>, weekOf: WeekOfYear): (weeks: seq<int>)
    ensures |weeks| == |xs|
    ensures forall i :: 0 <= i < |xs| ==> weeks[i] == weekOf(xs[i].enterTime)
  {
    if xs == [] then [] else [weekOf(xs[0].enterTime)] + WeekNumbers(xs[1..], weekOf)
  }

  /** The keys of `GroupBy(v => week of v.EnterTime)`, in order of first appearance. */
  function Weeks(xs: seq<Period>, weekOf: WeekOfYear): (weeks: seq<int>)
  {
    Distinct(WeekNumbers(xs, weekOf))
  }

  /** `GroupBy(...).Count()`: the number of distinct week numbers. */
  function WeekCount(xs: seq<Period>, weekOf: WeekOfYear): (n: nat)
    ensures n <= |xs|
    ensures n == 0 <==> xs == []
  {
    |Weeks(xs, weekOf)|
  }

  /** The group of one week: the records entering in it, in their original order. */
  function WeekGroup(xs: seq<Period>, weekOf: WeekOfYear, week: int): (group: seq<Period>)
    ensures forall i :: 0 <= i < |group| ==> group[i] in xs && weekOf(group[i].enterTime) == week
    ensures forall i :: 0 <= i < |xs| && weekOf(xs[i].enterTime) == week ==> xs[i] in group
  {
    if xs == [] then []
    else
      var rest := WeekGroup(xs[1..], weekOf, week);
      assert forall i :: 1 <= i < |xs| ==> xs[i] == xs[1..][i - 1];
      if weekOf(xs[0].enterTime) == week then [xs[0]] + rest else rest
  }

  /** A week that occurs in the data has a non-empty group. */
  lemma WeekGroupNonEmpty(xs: seq<Period>, weekOf: WeekOfYear, week: int)
    requires week in WeekNumbers(xs, weekOf)
    ensures |WeekGroup(xs, weekOf, week)| > 0
  {
  }

  /** The per-week results summed over the given weeks (the `foreach` over the groups). */
  function SumOfWeeks(xs: seq<Period>, weekOf: WeekOfYear, weeks: seq<int>): (units: nat)
    requires forall w :: w in weeks ==> w in WeekNumbers(xs, weekOf)
    ensures units <= SamplesPerWeek * |weeks|
  {
    if weeks == [] then 0
    else
      WeekGroupNonEmpty(xs, weekOf, weeks[0]);
      WeekUnavailability(WeekGroup(xs, weekOf, weeks[0])) + SumOfWeeks(xs, weekOf, weeks[1..])
  }

  /** Every week key of the copy is a week key of the original data. */
  lemma RemainingWeekNumbers(xs: seq<Period>, soldCount: nat, weekOf: WeekOfYear)
    requires soldCount <= |DistinctIds(xs)|
    ensures forall w :: w in WeekNumbers(Remaining(xs, soldCount), weekOf) ==> w in WeekNumbers(xs, weekOf)
  {
    var copy := Remaining(xs, soldCount);
    forall w | w in WeekNumbers(copy, weekOf)
      ensures w in WeekNumbers(xs, weekOf)
    {
      var i :| 0 <= i < |copy| && WeekNumbers(copy, weekOf)[i] == w;
      assert copy[i] in copy;
      var k :| 0 <= k < |xs| && xs[k] == copy[i];
      assert WeekNumbers(xs, weekOf)[k] == w;
    }
  }

  /** Selling vehicles never adds a week: the copy's weeks all occur in the original. */
  lemma RemainingWeeks(xs: seq<Period>, soldCount: nat, weekOf: WeekOfYear)
    requires soldCount <= |DistinctIds(xs)|
    ensures WeekCount(Remaining(xs, soldCount), weekOf) <= WeekCount(xs, weekOf)
  {
    RemainingWeekNumbers(xs, soldCount, weekOf);
    DistinctSubsetCardinality(WeekNumbers(Remaining(xs, soldCount), weekOf), WeekNumbers(xs, weekOf));
  }

  /**
    CalculateHoursOfUnavailability in quarter-hour units, for the
    Monday-first week numbering `mondayWeek`.
  */
  function HoursOfUnavailability(xs: seq<Period>, soldCount: nat, mondayWeek: WeekOfYear): (units: nat)
    requires soldCount <= |DistinctIds(xs)|
    ensures units <= SamplesPerWeek * WeekCount(xs, mondayWeek)
  {
    var originalWeeks := WeekCount(xs, mondayWeek);
    var copy := Remaining(xs, soldCount);
    var weeks := Weeks(copy, mondayWeek);
    RemainingWeeks(xs, soldCount, mondayWeek);
    var total := SumOfWeeks(copy, mondayWeek, weeks);
    if |weeks| != originalWeeks then total + SamplesPerWeek * (originalWeeks - |weeks|)
    else total
  }

  /** Every vanished week costs a full week, so the total is at least that much. */
  lemma VanishedWeeksCharged(xs: seq<Period>, soldCount: nat, mondayWeek: WeekOfYear)
    requires soldCount <= |DistinctIds(xs)|
    ensures SamplesPerWeek * (WeekCount(xs, mondayWeek) - WeekCount(Remaining(xs, soldCount), mondayWeek))
      <= HoursOfUnavailability(xs, soldCount, mondayWeek)
  {
  }

  /** With nothing sold, no week vanishes and nothing is backfilled. */
  lemma NothingSold(xs: seq<Period>, mondayWeek: WeekOfYear)
    ensures HoursOfUnavailability(xs, 0, mondayWeek) == SumOfWeeks(xs, mondayWeek, Weeks(xs, mondayWeek))
  {
  }

  /** Selling every vehicle leaves every week fully unavailable: 42.5 h per original week. */
  lemma WholeFleetSold(xs: seq<Period>, mondayWeek: WeekOfYear)
    ensures HoursOfUnavailability(xs, |DistinctIds(xs)|, mondayWeek) == SamplesPerWeek * WeekCount(xs, mondayWeek)
  {
    SellWholeFleet(xs);
    assert Weeks([], mondayWeek) == [];
  }

  /**
    What one week of the original data costs once vehicles are sold: the
    result of its group while the copy still has records in that week, and a
    full week (42.5 h) once it has none.
  */
  function WeekCharge(copy: seq<Period>, mondayWeek: WeekOfYear, week: int): (units: nat)
    ensures units <= SamplesPerWeek
    ensures week !in WeekNumbers(copy, mondayWeek) ==> units == SamplesPerWeek
  {
    if week in WeekNumbers(copy, mondayWeek) then
      WeekGroupNonEmpty(copy, mondayWeek, week);
      WeekUnavailability(WeekGroup(copy, mondayWeek, week))
    else SamplesPerWeek
  }

  /** The charges of the given weeks, added up. */
  function ChargeOfWeeks(copy: seq<Period>, mondayWeek: WeekOfYear, weeks: seq<int>): (units: nat)
    ensures units <= SamplesPerWeek * |weeks|
  {
    if weeks == [] then 0
    else WeekCharge(copy, mondayWeek, weeks[0]) + ChargeOfWeeks(copy, mondayWeek, weeks[1..])
  }

  /** Every record's week key is among the week keys of the data. */
  lemma WeekNumbersOfRecords(xs: seq<Period>, weekOf: WeekOfYear)
    ensures forall p :: p in xs ==> weekOf(p.enterTime) in WeekNumbers(xs, weekOf)
  {
    forall p | p in xs
      ensures weekOf(p.enterTime) in WeekNumbers(xs, weekOf)
    {
      var k :| 0 <= k < |xs| && xs[k] == p;
      assert WeekNumbers(xs, weekOf)[k] == weekOf(p.enterTime);
    }
  }

  /**
    A vanished week has an empty group, and a full week is exactly what the
    sampler scores for an empty group, whichever Monday it starts from.
  */
  lemma VanishedWeekIsEmptyWeek(copy: seq<Period>, mondayWeek: WeekOfYear, week: int, monday: int)
    requires week !in WeekNumbers(copy, mondayWeek)
    requires Weekday(monday) == Monday
    ensures WeekGroup(copy, mondayWeek, week) == []
    ensures WeekCharge(copy, mondayWeek, week) == UncoveredInWeek(monday, WeekGroup(copy, mondayWeek, week))
  {
    WeekNumbersOfRecords(copy, mondayWeek);
    EmptyWeekIsUnavailable(monday);
  }

  /** Over weeks that all still have records, the charges are the per-week results. */
  lemma {:induction false} ChargeOfPresentWeeks(copy: seq<Period>, mondayWeek: WeekOfYear, weeks: seq<int>)
    requires forall w :: w in weeks ==> w in WeekNumbers(copy, mondayWeek)
    ensures ChargeOfWeeks(copy, mondayWeek, weeks) == SumOfWeeks(copy, mondayWeek, weeks)
  {
    if weeks != [] {
      ChargeOfPresentWeeks(copy, mondayWeek, weeks[1..]);
    }
  }

  /** Taking one week out of a duplicate-free list of weeks takes out its charge. */
  lemma {:induction false} ChargeOfDrop(copy: seq<Period>, mondayWeek: WeekOfYear, weeks: seq<int>, week: int)
    requires NoDuplicates(weeks)
    requires week in weeks
    ensures ChargeOfWeeks(copy, mondayWeek, weeks)
      == WeekCharge(copy, mondayWeek, week) + ChargeOfWeeks(copy, mondayWeek, Drop(weeks, week))
  {
    NoDuplicatesTail(weeks);
    if weeks[0] == week {
      DropAbsent(weeks[1..], week);
    } else {
      ChargeOfDrop(copy, mondayWeek, weeks[1..], week);
    }
  }

  /** The total charge of a set of weeks does not depend on the order they are visited in. */
  lemma {:induction false} ChargeOfReordered(copy: seq<Period>, mondayWeek: WeekOfYear, a: seq<int>, b: seq<int>)
    requires NoDuplicates(a) && NoDuplicates(b)
    requires forall w :: w in a <==> w in b
    ensures ChargeOfWeeks(copy, mondayWeek, a) == ChargeOfWeeks(copy, mondayWeek, b)
    decreases |a|
  {
    SameElementsSameLength(a, b);
    if a != [] {
      var rest := Drop(b, a[0]);
      NoDuplicatesTail(a);
      assert a[0] in b;
      ChargeOfDrop(copy, mondayWeek, b, a[0]);
      DropNoDuplicates(b, a[0]);
      SameMembersAfterHead(a, b);
      ChargeOfReordered(copy, mondayWeek, a[1..], rest);
    }
  }

  /** The charges split into those of the weeks still present and a full week for each of the rest. */
  lemma {:induction false} ChargeOfSplit(copy: seq<Period>, mondayWeek: WeekOfYear, weeks: seq<int>)
    ensures var present := Keep(weeks, WeekNumbers(copy, mondayWeek));
      ChargeOfWeeks(copy, mondayWeek, weeks)
        == ChargeOfWeeks(copy, mondayWeek, present) + SamplesPerWeek * (|weeks| - |present|)
  {
    if weeks != [] {
      ChargeOfSplit(copy, mondayWeek, weeks[1..]);
    }
  }

  /**
    The simulator's total, week by week of the original data: each original
    week costs its group's result while it still has records, and 42.5 h
    once it has none.
  */
  lemma TotalByOriginalWeek(xs: seq<Period>, soldCount: nat, mondayWeek: WeekOfYear)
    requires soldCount <= |DistinctIds(xs)|
    ensures HoursOfUnavailability(xs, soldCount, mondayWeek)
      == ChargeOfWeeks(Remaining(xs, soldCount), mondayWeek, Weeks(xs, mondayWeek))
  {
    var copy := Remaining(xs, soldCount);
    var original := Weeks(xs, mondayWeek);
    var remaining := Weeks(copy, mondayWeek);
    var present := Keep(original, WeekNumbers(copy, mondayWeek));
    RemainingWeekNumbers(xs, soldCount, mondayWeek);
    RemainingWeeks(xs, soldCount, mondayWeek);
    KeepNoDuplicates(original, WeekNumbers(copy, mondayWeek));
    assert forall w :: w in present <==> w in remaining;
    SameElementsSameLength(present, remaining);
    ChargeOfReordered(copy, mondayWeek, present, remaining);
    ChargeOfPresentWeeks(copy, mondayWeek, remaining);
    ChargeOfSplit(copy, mondayWeek, original);
  }
}
