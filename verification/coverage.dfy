/**
  The per-week coverage sampler: for the records of one week, the number of
  quarter-hour sample instants in the Monday-to-Friday business hours at
  which no record places a vehicle inside the geofence.

  Durations are counted in quarter-hour units: one uncovered sample is
  0.25 h, and a week with no coverage at all is 170 units, i.e. 42.5 h.
*/
module Coverage {
  import opened Calendar
  import opened Periods

  /** 08:30, in minutes after midnight. */
  const BusinessStart: int := 510
  /** 17:00, in minutes after midnight; never itself sampled. */
  const BusinessEnd: int := 1020
  const SampleMinutes: int := 15
  const SamplesPerDay: nat := 34
  const BusinessDays: nat := 5
  /** MAX_HOURS_PER_WEEK (42.5 h) in quarter-hour units. */
  const SamplesPerWeek: nat := 170

  /**
    A record covers an instant when the instant lies within it, both ends
    included: a record covers its own enter and exit instants, and covers
    nothing at all when it exits before it enters.
  */
  function Covers(p: Period, t: Minute): (covered: bool)
    ensures covered ==> p.enterTime <= p.exitTime
    ensures p.enterTime <= p.exitTime && (t == p.enterTime || t == p.exitTime) ==> covered
  {
    p.enterTime <= t <= p.exitTime
  }

  /** Whether any record of the week covers `t` (`Any` in CalculateWeekHoursOfUnavailability). */
  function AnyCovers(week: seq<Period>, t: Minute): (covered: bool)
    ensures covered <==> exists i :: 0 <= i < |week| && Covers(week[i], t)
  {
    if week == [] then false
    else Covers(week[0], t) || AnyCovers(week[1..], t)
  }

  /** The instants the sampling loop visits: from `t` in 15-minute steps while before `end`. */
  function SamplesFrom(t: Minute, end: Minute): (samples: seq<Minute>)
    ensures forall j :: 0 <= j < |samples| ==> samples[j] == t + SampleMinutes * j
    ensures forall j :: 0 <= j < |samples| ==> samples[j] < end
    ensures t + SampleMinutes * |samples| >= end
    decreases end - t
  {
    if t < end then [t] + SamplesFrom(t + SampleMinutes, end) else []
  }

  /** The sample instants of one business day, 08:30 up to but not including 17:00. */
  function DaySamples(day: int): (samples: seq<Minute>)
    ensures forall j :: 0 <= j < |samples| ==>
      Midnight(day) + BusinessStart <= samples[j] < Midnight(day) + BusinessEnd
  {
    SamplesFrom(Midnight(day) + BusinessStart, Midnight(day) + BusinessEnd)
  }

  /** Independent description of a sample instant of `day`: a quarter hour from 08:30 on, before 17:00. */
  predicate IsSampleInstant(day: int, t: Minute)
  {
    var m := t - Midnight(day);
    BusinessStart <= m < BusinessEnd && (m - BusinessStart) % SampleMinutes == 0
  }

  /** Each business day is sampled 34 times, at 08:30, 08:45, ..., 16:45. */
  lemma DaySamplesShape(day: int)
    ensures |DaySamples(day)| == SamplesPerDay
    ensures forall j :: 0 <= j < SamplesPerDay ==>
      DaySamples(day)[j] == Midnight(day) + BusinessStart + SampleMinutes * j
  {
    var s := DaySamples(day);
    assert SampleMinutes * |s| >= BusinessEnd - BusinessStart;
    assert SampleMinutes * (|s| - 1) < BusinessEnd - BusinessStart by {
      assert s[|s| - 1] < Midnight(day) + BusinessEnd;
    }
  }

  /** The sampled instants of a day are exactly its sample instants. */
  lemma DaySampleMembership(day: int, t: Minute)
    ensures t in DaySamples(day) <==> IsSampleInstant(day, t)
  {
    var s := DaySamples(day);
    DaySamplesShape(day);
    if t in s {
      var j :| 0 <= j < |s| && s[j] == t;
      assert t - Midnight(day) - BusinessStart == SampleMinutes * j;
    }
    if IsSampleInstant(day, t) {
      var j := (t - Midnight(day) - BusinessStart) / SampleMinutes;
      assert 0 <= j < SamplesPerDay;
      assert s[j] == t;
    }
  }

  /** 08:30 and 16:45 are sampled; 17:00 is not. */
  lemma SamplingBoundaries(day: int)
    ensures Midnight(day) + BusinessStart in DaySamples(day)
    ensures Midnight(day) + BusinessEnd - SampleMinutes in DaySamples(day)
    ensures Midnight(day) + BusinessEnd !in DaySamples(day)
  {
    DaySampleMembership(day, Midnight(day) + BusinessStart);
    DaySampleMembership(day, Midnight(day) + BusinessEnd - SampleMinutes);
    DaySampleMembership(day, Midnight(day) + BusinessEnd);
  }

  /** The number of sample instants that no record of the week covers. */
  function UncoveredCount(week: seq<Period>, samples: seq<Minute>): (n: nat)
    ensures n <= |samples|
  {
    if samples == [] then 0
    else (if AnyCovers(week, samples[0]) then 0 else 1) + UncoveredCount(week, samples[1..])
  }

  lemma {:induction false} UncoveredCountAppend(week: seq<Period>, a: seq<Minute>, b: seq<Minute>)
    ensures UncoveredCount(week, a + b) == UncoveredCount(week, a) + UncoveredCount(week, b)
  {
    if a == [] {
      assert a + b == b;
    } else {
      assert (a + b)[1..] == a[1..] + b;
      UncoveredCountAppend(week, a[1..], b);
    }
  }

  /** No uncovered sample exactly when every sample is covered. */
  lemma {:induction false} UncoveredCountZero(week: seq<Period>, samples: seq<Minute>)
    ensures UncoveredCount(week, samples) == 0 <==> forall t :: t in samples ==> AnyCovers(week, t)
  {
    if samples != [] {
      var rest := samples[1..];
      UncoveredCountZero(week, rest);
      assert forall t :: t in samples <==> t == samples[0] || t in rest;
      if UncoveredCount(week, samples) == 0 {
        assert AnyCovers(week, samples[0]);
        assert UncoveredCount(week, rest) == 0;
      }
      if forall t :: t in samples ==> AnyCovers(week, t) {
        assert AnyCovers(week, samples[0]);
        assert forall t :: t in rest ==> AnyCovers(week, t);
      }
    }
  }

  /** Every sample is uncovered exactly when no sample is covered. */
  lemma {:induction false} UncoveredCountFull(week: seq<Period>, samples: seq<Minute>)
    ensures UncoveredCount(week, samples) == |samples| <==> forall t :: t in samples ==> !AnyCovers(week, t)
  {
    if samples != [] {
      var rest := samples[1..];
      UncoveredCountFull(week, rest);
      assert forall t :: t in samples <==> t == samples[0] || t in rest;
      if UncoveredCount(week, samples) == |samples| {
        assert !AnyCovers(week, samples[0]);
        assert UncoveredCount(week, rest) == |rest|;
      }
      if forall t :: t in samples ==> !AnyCovers(week, t) {
        assert !AnyCovers(week, samples[0]);
        assert forall t :: t in rest ==> !AnyCovers(week, t);
      }
    }
  }

  /**
    Coverage is an existential over records, so a week holding every record
    of `sub` (and maybe more) leaves no more samples uncovered than `sub` does.
  */
  lemma {:induction false} UncoveredCountAntitone(week: seq<Period>, sub: seq<Period>, samples: seq<Minute>)
    requires forall p :: p in sub ==> p in week
    ensures UncoveredCount(week, samples) <= UncoveredCount(sub, samples)
  {
    if samples != [] {
      UncoveredCountAntitone(week, sub, samples[1..]);
      if AnyCovers(sub, samples[0]) {
        var i :| 0 <= i < |sub| && Covers(sub[i], samples[0]);
        assert sub[i] in sub;
        var k :| 0 <= k < |week| && week[k] == sub[i];
        assert AnyCovers(week, samples[0]);
      }
    }
  }

  /** The samples of several days, day after day. */
  function SamplesOfDays(days: seq<int>): (samples: seq<Minute>)
    ensures |samples| == SamplesPerDay * |days|
    ensures forall t :: t in samples <==> exists i :: 0 <= i < |days| && t in DaySamples(days[i])
  {
    if days == [] then []
    else
      DaySamplesShape(days[0]);
      var rest := SamplesOfDays(days[1..]);
      assert forall t :: t in DaySamples(days[0]) + rest <==> t in DaySamples(days[0]) || t in rest;
      assert forall i :: 0 < i < |days| ==> days[i] == days[1..][i - 1];
      DaySamples(days[0]) + rest
  }

  /** The program's day loop with the sample loop nested in it, summing per day. */
  function UncoveredOnDays(week: seq<Period>, days: seq<int>): (n: nat)
    ensures n <= SamplesPerDay * |days|
  {
    if days == [] then 0
    else
      DaySamplesShape(days[0]);
      UncoveredCount(week, DaySamples(days[0])) + UncoveredOnDays(week, days[1..])
  }

  lemma {:induction false} UncoveredOnDaysFlat(week: seq<Period>, days: seq<int>)
    ensures UncoveredOnDays(week, days) == UncoveredCount(week, SamplesOfDays(days))
  {
    if days != [] {
      UncoveredOnDaysFlat(week, days[1..]);
      UncoveredCountAppend(week, DaySamples(days[0]), SamplesOfDays(days[1..]));
    }
  }

  /** All sample instants of the week that begins on `monday`. */
  function WeekSamples(monday: int): (samples: seq<Minute>)
  {
    SamplesOfDays(WeekdaysFrom(monday))
  }

  /** Independent description of a weekly sample instant: a sample instant of Monday to Friday. */
  predicate IsWeekSample(monday: int, t: Minute)
  {
    exists day :: monday <= day < monday + BusinessDays && IsSampleInstant(day, t)
  }

  /** A week is sampled 170 times, at exactly its weekly sample instants. */
  lemma WeekSamplesShape(monday: int)
    requires Weekday(monday) == Monday
    ensures |WeekSamples(monday)| == SamplesPerWeek
    ensures forall t :: t in WeekSamples(monday) <==> IsWeekSample(monday, t)
  {
    MondayToFriday(monday);
    var days := WeekdaysFrom(monday);
    forall t
      ensures t in WeekSamples(monday) <==> IsWeekSample(monday, t)
    {
      if t in WeekSamples(monday) {
        var i :| 0 <= i < |days| && t in DaySamples(days[i]);
        DaySampleMembership(days[i], t);
      }
      if IsWeekSample(monday, t) {
        var day :| monday <= day < monday + BusinessDays && IsSampleInstant(day, t);
        DaySampleMembership(day, t);
        assert days[day - monday] == day;
      }
    }
  }

  /**
    The uncovered samples of the week that begins on `monday`, as
    CalculateWeekHoursOfUnavailability computes them: day by day from
    Monday while the weekday is at most Friday.
  */
  function UncoveredInWeek(monday: int, week: seq<Period>): (n: nat)
    requires Weekday(monday) == Monday
    ensures n <= SamplesPerWeek
    ensures n == UncoveredCount(week, WeekSamples(monday))
  {
    UncoveredOnDaysFlat(week, WeekdaysFrom(monday));
    WeekSamplesShape(monday);
    UncoveredOnDays(week, WeekdaysFrom(monday))
  }

  /** A week has no unavailability exactly when every weekly sample instant is covered. */
  lemma WeekFullyCovered(monday: int, week: seq<Period>)
    requires Weekday(monday) == Monday
    ensures UncoveredInWeek(monday, week) == 0 <==>
      forall t :: IsWeekSample(monday, t) ==> AnyCovers(week, t)
  {
    WeekSamplesShape(monday);
    UncoveredCountZero(week, WeekSamples(monday));
  }

  /** A week is entirely unavailable (42.5 h) exactly when no weekly sample instant is covered. */
  lemma WeekFullyUncovered(monday: int, week: seq<Period>)
    requires Weekday(monday) == Monday
    ensures UncoveredInWeek(monday, week) == SamplesPerWeek <==>
      forall t :: IsWeekSample(monday, t) ==> !AnyCovers(week, t)
  {
    WeekSamplesShape(monday);
    UncoveredCountFull(week, WeekSamples(monday));
  }

  /** With no records at all, every sample of the week is uncovered. */
  lemma EmptyWeekIsUnavailable(monday: int)
    requires Weekday(monday) == Monday
    ensures UncoveredInWeek(monday, []) == SamplesPerWeek
  {
    WeekFullyUncovered(monday, []);
  }

  /** One record present from Monday 08:30 to Friday 16:45 leaves nothing uncovered. */
  lemma SpanningRecordCoversWeek(monday: int, p: Period)
    requires Weekday(monday) == Monday
    requires p.enterTime <= Midnight(monday) + BusinessStart
    requires Midnight(monday + 4) + BusinessEnd - SampleMinutes <= p.exitTime
    ensures UncoveredInWeek(monday, [p]) == 0
  {
    forall t | IsWeekSample(monday, t)
      ensures AnyCovers([p], t)
    {
      var day :| monday <= day < monday + BusinessDays && IsSampleInstant(day, t);
      assert Covers([p][0], t);
    }
    WeekFullyCovered(monday, [p]);
  }

  /** For a fixed Monday, dropping records from a week never lowers its uncovered count. */
  lemma WeekUncoveredAntitone(monday: int, week: seq<Period>, sub: seq<Period>)
    requires Weekday(monday) == Monday
    requires forall p :: p in sub ==> p in week
    ensures UncoveredInWeek(monday, week) <= UncoveredInWeek(monday, sub)
  {
    UncoveredCountAntitone(week, sub, WeekSamples(monday));
  }

  /** Both ends are inclusive: a record covers the instants it enters and exits at. */
  lemma EndpointsCovered(week: seq<Period>, i: nat)
    requires i < |week|
    requires week[i].enterTime <= week[i].exitTime
    ensures AnyCovers(week, week[i].enterTime)
    ensures AnyCovers(week, week[i].exitTime)
  {
  }

  /** The earliest enter time of a non-empty week (`Min` in CalculateWeekHoursOfUnavailability). */
  function MinEnter(week: seq<Period>): (m: Minute)
    requires |week| > 0
    ensures exists i :: 0 <= i < |week| && week[i].enterTime == m
    ensures forall i :: 0 <= i < |week| ==> m <= week[i].enterTime
  {
    if |week| == 1 then week[0].enterTime
    else
      var rest := MinEnter(week[1..]);
      assert forall i :: 1 <= i < |week| ==> week[i] == week[1..][i - 1];
      if week[0].enterTime <= rest then week[0].enterTime else rest
  }

  /** The Monday of the week holding the earliest enter time: the day the sampler starts from. */
  function WeekAnchor(week: seq<Period>): (monday: int)
    requires |week| > 0
    ensures Weekday(monday) == Monday
    ensures monday <= DayOf(MinEnter(week)) <= monday + 6
    ensures Midnight(monday) <= MinEnter(week)
  {
    MondayOnOrBefore(DayOf(MinEnter(week)))
  }

  /** CalculateWeekHoursOfUnavailability, in quarter-hour units. */
  function WeekUnavailability(week: seq<Period>): (n: nat)
    requires |week| > 0
    ensures n <= SamplesPerWeek
    ensures n == UncoveredCount(week, WeekSamples(WeekAnchor(week)))
  {
    UncoveredInWeek(WeekAnchor(week), week)
  }
}
