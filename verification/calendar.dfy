/**
  Calendar arithmetic on whole-minute timestamps.

  A timestamp is the number of minutes since 0001-01-01 00:00, the epoch of
  .NET's DateTime, which fell on a Monday. Days are numbered the same way
  (day 0 is that Monday), and weekdays use .NET's DayOfWeek numbering,
  Sunday = 0 through Saturday = 6.
*/
module Calendar {

  type Minute = int

  const MinutesPerDay: int := 1440

  const Sunday: int := 0
  const Monday: int := 1
  const Friday: int := 5
  const Saturday: int := 6

  /** The weekday of day 0. */
  const EpochWeekday: int := Monday

  /** The day a timestamp falls on: the midnight-aligned `DateTime.Date`. */
  function DayOf(t: Minute): (day: int)
    ensures day * MinutesPerDay <= t < (day + 1) * MinutesPerDay
  {
    t / MinutesPerDay
  }

  /** The first minute of a day. */
  function Midnight(day: int): (t: Minute)
    ensures DayOf(t) == day
  {
    day * MinutesPerDay
  }

  /**
    The `DayOfWeek` of a day: Sunday = 0 .. Saturday = 6, and Monday on the
    epoch day and every seventh day from it.
  */
  function Weekday(day: int): (weekday: int)
    ensures Sunday <= weekday <= Saturday
    ensures day % 7 == 0 ==> weekday == Monday
  {
    (day + EpochWeekday) % 7
  }

  lemma WeekdayNext(day: int)
    ensures Weekday(day) < Saturday ==> Weekday(day + 1) == Weekday(day) + 1
    ensures Weekday(day) == Saturday ==> Weekday(day + 1) == Sunday
  {
  }

  lemma WeekdayPrevious(day: int)
    ensures Weekday(day) > Sunday ==> Weekday(day - 1) == Weekday(day) - 1
    ensures Weekday(day) == Sunday ==> Weekday(day - 1) == Saturday
  {
  }

  /** Days back from a day to the Monday on or before it. */
  function DaysSinceMonday(day: int): (n: int)
    ensures 0 <= n < 7
    ensures n == 0 <==> Weekday(day) == Monday
  {
    (Weekday(day) + 6) % 7
  }

  /**
    The week anchor: starting from `day`, step back one day at a time until
    the weekday is Monday.
  */
  function MondayOnOrBefore(day: int): (monday: int)
    ensures Weekday(monday) == Monday
    ensures monday <= day <= monday + 6
    ensures forall d :: monday < d <= day ==> Weekday(d) != Monday
    decreases DaysSinceMonday(day)
  {
    if Weekday(day) == Monday then day
    else
      WeekdayPrevious(day);
      MondayOnOrBefore(day - 1)
  }

  /** The backward walk from `day` takes `DaysSinceMonday(day)` steps. */
  lemma AnchorWalkLength(day: int)
    ensures MondayOnOrBefore(day) == day - DaysSinceMonday(day)
  {
  }

  /**
    The days the week loop visits: from `day` onwards, one day at a time,
    for as long as the weekday is at most Friday.
  */
  function WeekdaysFrom(day: int): (days: seq<int>)
    ensures |days| == Saturday - Weekday(day)
    ensures forall i :: 0 <= i < |days| ==> days[i] == day + i
    ensures forall i :: 0 <= i < |days| ==> Weekday(days[i]) == Weekday(day) + i
    decreases Saturday - Weekday(day)
  {
    if Weekday(day) <= Friday then
      WeekdayNext(day);
      [day] + WeekdaysFrom(day + 1)
    else []
  }

  /** Started on a Monday, the week loop visits exactly Monday to Friday. */
  lemma MondayToFriday(monday: int)
    requires Weekday(monday) == Monday
    ensures WeekdaysFrom(monday) == [monday, monday + 1, monday + 2, monday + 3, monday + 4]
  {
  }
}
