/**
 * Calendar weighting: every day of the planned month gets a duty weight, in points scaled
 * by 1000 so that 1.0, 1.5 and 2.0 points are the integers 1000, 1500 and 2000.
 * Weekdays are numbered as Python's `weekday()`: Monday 0 ... Sunday 6.
 */
module Calendar {
  import opened Common

  /** Fixed-point scale: 1000 keeps three decimal places. */
  const SCALE: int := 1000
  const WEEKDAY_POINTS: int := SCALE          // Monday to Thursday, 1.0
  const FRIDAY_POINTS: int := 3 * SCALE / 2   // Friday and holiday eves, 1.5
  const WEEKEND_POINTS: int := 2 * SCALE      // Saturday, Sunday and holidays, 2.0

  /** The planned month: the weekday of its first day and its number of days. */
  datatype Month = Month(firstWeekday: nat, length: nat)

  predicate ValidMonth(m: Month)
  {
    m.firstWeekday < 7 && 28 <= m.length <= 31
  }

  function WeekdayOf(m: Month, day: nat): (wd: nat)
    requires 1 <= day
    ensures wd < 7
  {
    (m.firstWeekday + day - 1) % 7
  }

  /** Day of month of the following calendar day: 1 after the last day of the month. */
  function NextDayOfMonth(m: Month, day: nat): nat
  {
    if day == m.length then 1 else day + 1
  }

  function BaseWeight(wd: nat): int
  {
    if wd >= 5 then WEEKEND_POINTS else if wd == 4 then FRIDAY_POINTS else WEEKDAY_POINTS
  }

  /**
   * The weight of one day: the weekday weight, then the holiday override (a holiday weighs
   * 2.0; otherwise a day whose next day-of-month is a holiday is raised to 1.5 when below 2.0),
   * then the last-day override (the last day, flagged as a holiday eve, is raised to 1.5 when
   * below 2.0).
   */
  function DayWeight(wd: nat, day: nat, next: nat, holidays: set<nat>, lastDay: nat, lastIsEve: bool): (w: int)
    requires wd < 7
    ensures w == WEEKEND_POINTS <==> (wd >= 5 || day in holidays)
    ensures w == FRIDAY_POINTS <==>
      (wd < 5 && day !in holidays && (wd == 4 || next in holidays || (day == lastDay && lastIsEve)))
    ensures w == WEEKDAY_POINTS <==>
      (wd < 4 && day !in holidays && next !in holidays && !(day == lastDay && lastIsEve))
    ensures w >= BaseWeight(wd)
  {
    var base := BaseWeight(wd);
    var p := if day in holidays then WEEKEND_POINTS
             else if next in holidays && base < WEEKEND_POINTS then FRIDAY_POINTS
             else base;
    if day == lastDay && lastIsEve && p < WEEKEND_POINTS then FRIDAY_POINTS else p
  }

  /** One entry of the duty-day list: day of month, weekday, scaled weight. */
  datatype DutyDay = DutyDay(day: nat, weekday: nat, points: int)

  /** The weight of day `day` (1-based) of month `m`. */
  function WeightOf(m: Month, holidays: set<nat>, lastIsEve: bool, day: nat): int
    requires 1 <= day
  {
    DayWeight(WeekdayOf(m, day), day, NextDayOfMonth(m, day), holidays, m.length, lastIsEve)
  }

  /** The weights of the whole month, day 1 first. */
  function MonthWeights(m: Month, holidays: set<nat>, lastIsEve: bool): (ws: seq<int>)
    ensures |ws| == m.length
    ensures forall i :: 0 <= i < m.length ==> ws[i] == WeightOf(m, holidays, lastIsEve, i + 1)
  {
    seq(m.length, i requires 0 <= i < m.length => WeightOf(m, holidays, lastIsEve, i + 1))
  }

  function Weights(days: seq<DutyDay>): (ws: seq<int>)
    ensures |ws| == |days|
    ensures forall i :: 0 <= i < |days| ==> ws[i] == days[i].points
  {
    seq(|days|, i requires 0 <= i < |days| => days[i].points)
  }

  /** Builds the duty-day list in date order, one entry per day of the month. */
  method BuildDutyDays(m: Month, holidays: set<nat>, lastIsEve: bool) returns (days: seq<DutyDay>)
    requires ValidMonth(m)
    ensures |days| == m.length
    ensures forall i :: 0 <= i < |days| ==>
      days[i].day == i + 1 && days[i].weekday == WeekdayOf(m, i + 1) && days[i].points == MonthWeights(m, holidays, lastIsEve)[i]
    ensures Weights(days) == MonthWeights(m, holidays, lastIsEve)
  {
    days := [];
    var d := 1;
    while d <= m.length
      invariant 1 <= d <= m.length + 1
      invariant |days| == d - 1
      invariant forall i :: 0 <= i < |days| ==>
        days[i].day == i + 1 && days[i].weekday == WeekdayOf(m, i + 1) && days[i].points == WeightOf(m, holidays, lastIsEve, i + 1)
    {
      var wd := (m.firstWeekday + d - 1) % 7;
      var next := if d == m.length then 1 else d + 1;
      var point := DayWeight(wd, d, next, holidays, m.length, lastIsEve);
      days := days + [DutyDay(d, wd, point)];
      d := d + 1;
    }
  }

  /** Every weight is 1.0, 1.5 or 2.0 points, so the month total lies between 1.0 and 2.0
      points per day. */
  lemma MonthTotalBounds(m: Month, holidays: set<nat>, lastIsEve: bool)
    ensures var total := Sum(MonthWeights(m, holidays, lastIsEve));
      WEEKDAY_POINTS * m.length <= total <= WEEKEND_POINTS * m.length
  {
    var ws := MonthWeights(m, holidays, lastIsEve);
    forall i | 0 <= i < |ws| ensures WEEKDAY_POINTS <= ws[i] <= WEEKEND_POINTS {
      var w := ws[i];
      assert w == WEEKDAY_POINTS || w == FRIDAY_POINTS || w == WEEKEND_POINTS;
    }
    SumBetween(ws, WEEKDAY_POINTS, WEEKEND_POINTS);
  }

  lemma {:induction false} SumBetween(xs: seq<int>, lo: int, hi: int)
    requires forall i :: 0 <= i < |xs| ==> lo <= xs[i] <= hi
    ensures lo * |xs| <= Sum(xs) <= hi * |xs|
    decreases |xs|
  {
    if xs != [] {
      SumBetween(xs[..|xs| - 1], lo, hi);
    }
  }

  /** A 28-day month starting on a Monday without holidays: day 5 (the first Friday) weighs
      1.5, days 6 and 7 weigh 2.0, and the month totals 4 x 9.5 = 38 points. */
  lemma FourPlainWeeks()
    ensures var ws := MonthWeights(Month(0, 28), {}, false);
      ws[0] == WEEKDAY_POINTS && ws[4] == FRIDAY_POINTS && ws[5] == WEEKEND_POINTS && ws[6] == WEEKEND_POINTS &&
      Sum(ws) == 38000
  {
    var ws := MonthWeights(Month(0, 28), {}, false);
    assert ws[0] == WeightOf(Month(0, 28), {}, false, 1);
    assert ws[4] == WeightOf(Month(0, 28), {}, false, 5);
    assert ws[5] == WeightOf(Month(0, 28), {}, false, 6);
    assert ws[6] == WeightOf(Month(0, 28), {}, false, 7);
    assert Sum(ws) == 38000 by { FourWeekSum(ws); }
  }

  lemma FourWeekSum(ws: seq<int>)
    requires ws == MonthWeights(Month(0, 28), {}, false)
    ensures Sum(ws) == 38000
  {
    var w0, w1, w2, w3 := ws[0..7], ws[7..14], ws[14..21], ws[21..28];
    PlainWeek(ws, 0);
    PlainWeek(ws, 1);
    PlainWeek(ws, 2);
    PlainWeek(ws, 3);
    assert ws == w0 + w1 + w2 + w3;
    SumAppend(w0, w1);
    SumAppend(w0 + w1, w2);
    SumAppend(w0 + w1 + w2, w3);
  }

  lemma PlainWeek(ws: seq<int>, k: nat)
    requires k < 4 && ws == MonthWeights(Month(0, 28), {}, false)
    ensures Sum(ws[7 * k..7 * k + 7]) == 9500
  {
    var week := ws[7 * k..7 * k + 7];
    forall i | 0 <= i < 7 ensures week[i] == BaseWeight(i) {
      assert WeekdayOf(Month(0, 28), 7 * k + i + 1) == i;
    }
    assert week == [1000, 1000, 1000, 1000, 1500, 2000, 2000];
    SevenSum(week);
  }

  lemma SevenSum(w: seq<int>)
    requires |w| == 7
    ensures Sum(w) == w[0] + w[1] + w[2] + w[3] + w[4] + w[5] + w[6]
  {
    assert w[..6][..5] == w[..5] && w[..5][..4] == w[..4] && w[..4][..3] == w[..3];
    assert w[..3][..2] == w[..2] && w[..2][..1] == w[..1] && w[..1][..0] == [];
    assert Sum(w[..1]) == w[0];
    assert Sum(w[..3]) == w[0] + w[1] + w[2];
    assert Sum(w[..5]) == w[0] + w[1] + w[2] + w[3] + w[4];
  }

  /** The next-day test reads only the day of month: for the last day it is day 1, so a
      holiday on the 1st of the same month raises a weekday last day to 1.5. */
  lemma LastDayRaisedByFirstOfMonth(m: Month, holidays: set<nat>)
    requires ValidMonth(m)
    requires 1 in holidays && m.length !in holidays
    requires WeekdayOf(m, m.length) < 5
    ensures MonthWeights(m, holidays, false)[m.length - 1] == FRIDAY_POINTS
  {
    assert NextDayOfMonth(m, m.length) == 1;
  }

  /** The last-day flag raises a weekday last day to 1.5 and leaves a weekend last day at 2.0. */
  lemma LastDayEve(m: Month, holidays: set<nat>)
    requires ValidMonth(m) && m.length !in holidays
    ensures var w := MonthWeights(m, holidays, true)[m.length - 1];
      (WeekdayOf(m, m.length) < 5 ==> w == FRIDAY_POINTS) &&
      (WeekdayOf(m, m.length) >= 5 ==> w == WEEKEND_POINTS)
  {
  }
}
