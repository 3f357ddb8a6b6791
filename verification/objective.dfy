/**
 * The balancing objective: the average monthly points, the target score every person is
 * steered towards, the deviation variables the solver minimises, and the starting scores
 * handed to the next planning cycle. All scores are scaled by 1000.
 */
module Objective {
  import opened Common
  import opened Text
  import opened Inputs
  import opened Calendar
  import opened Roster
  import opened Eligibility
  import opened Scores

  /**
   * Average monthly points per person: the month's points divided, rounded down, by the
   * staff count less the number of distinct frozen names. None when that count is zero,
   * where the division stops the program.
   */
  function AvgMonthPoints(staff: seq<Person>, total: nat): (r: Option<nat>)
    ensures var d := |staff| - |FrozenKeys(staff)|;
      d >= 0 && (r.None? <==> d == 0) && (r.Some? ==> r.value * d <= total < (r.value + 1) * d)
  {
    FrozenKeysBound(staff);
    var d := |staff| - |FrozenKeys(staff)|;
    if d == 0 then None else Some(total / d)
  }

  /** `num / den` rounded to the nearest integer, ties to the even neighbour. */
  function RoundHalfEven(num: int, den: int): (r: int)
    requires den > 0
    ensures -den <= 2 * (num - r * den) <= den
    ensures (2 * (num - r * den) == den || 2 * (num - r * den) == -den) ==> r % 2 == 0
  {
    var q, rem := num / den, num % den;
    assert num == q * den + rem;
    assert (q + 1) * den == q * den + den;
    if 2 * rem < den then q
    else if 2 * rem > den then q + 1
    else if q % 2 == 0 then q
    else q + 1
  }

  /** The target score: the mean current score plus the average monthly points, rounded
      half to even. */
  function Target(current: seq<int>, avg: int): (t: int)
    requires |current| > 0
    ensures var n := |current|; -n <= 2 * (Sum(current) + avg * n - t * n) <= n
  {
    RoundHalfEven(Sum(current) + avg * |current|, |current|)
  }

  /** When everybody starts level, the target is exactly one average month above them. */
  lemma LevelTarget(current: seq<int>, c: int, avg: int)
    requires |current| > 0 && forall j :: 0 <= j < |current| ==> current[j] == c
    ensures Target(current, avg) == c + avg
  {
    var n := |current|;
    SumConstant(current, c);
    assert Sum(current) + avg * n == (c + avg) * n;
    RoundExact(c + avg, n);
  }

  /** A whole multiple of the divisor rounds to its exact quotient. */
  lemma RoundExact(k: int, den: int)
    requires den > 0
    ensures RoundHalfEven(k * den, den) == k
  {
    var r := RoundHalfEven(k * den, den);
    var e := k - r;
    assert k * den - r * den == e * den;
    assert -den <= 2 * (e * den) <= den;
    if e >= 1 {
      MulAtLeast(e, den);
    } else if e <= -1 {
      MulAtLeast(-e, den);
    }
  }

  lemma MulAtLeast(a: int, b: int)
    requires a >= 1 && b > 0
    ensures a * b >= b
  {
    assert a * b == (a - 1) * b + b;
  }

  lemma {:induction false} SumConstant(xs: seq<int>, c: int)
    requires forall j :: 0 <= j < |xs| ==> xs[j] == c
    ensures Sum(xs) == c * |xs|
  {
    if xs != [] {
      var init := xs[..|xs| - 1];
      assert forall j :: 0 <= j < |init| ==> init[j] == c;
      SumConstant(init, c);
    }
  }

  /** A deviation value admitted by the solver: within its domain and at least the distance
      between the score and the target on either side. */
  predicate DevOk(dev: int, score: int, target: int, maxPts: int)
  {
    0 <= dev <= maxPts && dev >= score - target && dev >= target - score
  }

  /** The least admissible deviation for one score, or None when no value is admissible. */
  function MinDeviation(score: int, target: int, maxPts: int): (r: Option<int>)
    ensures r.Some? ==> DevOk(r.value, score, target, maxPts) &&
                        forall d :: DevOk(d, score, target, maxPts) ==> r.value <= d
    ensures r.None? ==> forall d :: !DevOk(d, score, target, maxPts)
  {
    if Abs(score - target) <= maxPts then Some(Abs(score - target)) else None
  }

  /** The sum of the distances between the final scores and the target. */
  function TotalDeviation(finals: seq<int>, target: int): nat
  {
    if finals == [] then 0 else TotalDeviation(finals[..|finals| - 1], target) + Abs(finals[|finals| - 1] - target)
  }

  /** No admissible choice of deviations sums to less than the total distance ... */
  lemma {:induction false} ObjectiveLowerBound(finals: seq<int>, devs: seq<int>, target: int, maxPts: int)
    requires |devs| == |finals|
    requires forall j :: 0 <= j < |finals| ==> DevOk(devs[j], finals[j], target, maxPts)
    ensures Sum(devs) >= TotalDeviation(finals, target)
  {
    if finals != [] {
      var k := |finals| - 1;
      assert forall j :: 0 <= j < k ==> devs[..k][j] == devs[j] && finals[..k][j] == finals[j];
      ObjectiveLowerBound(finals[..k], devs[..k], target, maxPts);
    }
  }

  /** ... and when every distance fits the deviation domain, the distances themselves are
      admissible, so the objective's least value for a schedule is its total distance. */
  lemma {:induction false} ObjectiveAttained(finals: seq<int>, target: int, maxPts: int)
    requires forall j :: 0 <= j < |finals| ==> Abs(finals[j] - target) <= maxPts
    ensures var devs := seq(|finals|, j requires 0 <= j < |finals| => Abs(finals[j] - target));
      (forall j :: 0 <= j < |finals| ==> DevOk(devs[j], finals[j], target, maxPts)) &&
      Sum(devs) == TotalDeviation(finals, target)
  {
    var devs := seq(|finals|, j requires 0 <= j < |finals| => Abs(finals[j] - target));
    if finals != [] {
      var k := |finals| - 1;
      ObjectiveAttained(finals[..k], target, maxPts);
      assert devs[..k] == seq(k, j requires 0 <= j < k => Abs(finals[..k][j] - target));
    }
  }

  /**
   * A schedule the solver can return: valid, and every final score within the deviation
   * domain of the target (the deviation variables range over 0 to the month's points).
   */
  ghost predicate Feasible(vars: set<(nat, nat)>, staff: seq<Person>, m: Month, weights: seq<int>, target: int, s: Schedule)
  {
    ValidSchedule(vars, |staff|, m, s) && |weights| == |s| &&
    forall j :: 0 <= j < |staff| ==> MinDeviation(staff[j].score + AssignedPoints(s, weights, j), target, Sum(weights)).Some?
  }

  /** A frozen person is never on duty, so a frozen score further from the target than a
      whole month's points leaves the model without any solution. */
  lemma FrozenOutlierInfeasible(staff: seq<Person>, m: Month, weights: seq<int>, target: int, j: nat)
    requires j < |staff| && IsFrozen(staff, j)
    requires Abs(staff[j].score - target) > Sum(weights)
    ensures forall s :: !Feasible(AssignmentVars(staff, m), staff, m, weights, target, s)
  {
    forall s ensures !Feasible(AssignmentVars(staff, m), staff, m, weights, target, s) {
      if Feasible(AssignmentVars(staff, m), staff, m, weights, target, s) {
        FrozenNeverOnDuty(staff, m, s, j);
        NoDutyNoPoints(s, weights, j);
      }
    }
  }

  lemma FrozenNeverOnDuty(staff: seq<Person>, m: Month, s: Schedule, j: nat)
    requires j < |staff| && IsFrozen(staff, j)
    requires UsesVars(AssignmentVars(staff, m), s)
    ensures forall i :: 0 <= i < |s| ==> s[i] != Some(j)
  {
    forall i | 0 <= i < |s| ensures s[i] != Some(j) {
    }
  }

  /** The next cycle's starting score of person `j`: frozen staff keep their current score,
      everybody else carries the final score less the average monthly points. */
  function NextScore(staff: seq<Person>, final: seq<int>, avg: int, j: nat): int
    requires j < |staff| && |final| == |staff|
  {
    if IsFrozen(staff, j) then staff[j].score else final[j] - avg
  }

  /** The override as written: it matches the lower-cased name without stripping it. */
  function NextScoreAsWritten(staff: seq<Person>, final: seq<int>, avg: int, j: nat): int
    requires j < |staff| && |final| == |staff|
  {
    if Lower(staff[j].name) in FrozenKeys(staff) then staff[j].score else final[j] - avg
  }

  /** For a name without surrounding whitespace the override as written and the corrected
      one agree, so what is proved about `NextScore` holds of the program for such names. */
  lemma AsWrittenAgrees(staff: seq<Person>, final: seq<int>, avg: int, j: nat)
    requires j < |staff| && |final| == |staff|
    requires Strip(staff[j].name) == staff[j].name
    ensures NextScoreAsWritten(staff, final, avg, j) == NextScore(staff, final, avg, j)
  {
  }

  function NextScores(staff: seq<Person>, final: seq<int>, avg: int): seq<int>
    requires |final| == |staff|
  {
    seq(|staff|, j requires 0 <= j < |staff| => NextScore(staff, final, avg, j))
  }

  /** Which people are not frozen, in staff order. */
  function ActiveFlags(staff: seq<Person>): (r: seq<bool>)
    ensures |r| == |staff| && forall j :: 0 <= j < |staff| ==> (r[j] <==> !IsFrozen(staff, j))
  {
    seq(|staff|, j requires 0 <= j < |staff| => !IsFrozen(staff, j))
  }

  function CountTrue(bs: seq<bool>): nat
  {
    if bs == [] then 0 else CountTrue(bs[..|bs| - 1]) + (if bs[|bs| - 1] then 1 else 0)
  }

  /** Number of people who are not frozen. */
  function ActiveCount(staff: seq<Person>): nat
  {
    CountTrue(ActiveFlags(staff))
  }

  /** Subtracting `avg` at the flagged positions lowers the sum by `avg` per flag. */
  lemma {:induction false} ShiftedSum(final: seq<int>, next: seq<int>, active: seq<bool>, avg: int)
    requires |final| == |next| == |active|
    requires forall j :: 0 <= j < |final| ==> next[j] == final[j] - (if active[j] then avg else 0)
    ensures Sum(next) == Sum(final) - avg * CountTrue(active)
  {
    if final != [] {
      var k := |final| - 1;
      var f, x, a := final[..k], next[..k], active[..k];
      assert forall j :: 0 <= j < k ==> f[j] == final[j] && x[j] == next[j] && a[j] == active[j];
      ShiftedSum(f, x, a, avg);
      assert avg * CountTrue(active) == avg * CountTrue(a) + (if active[k] then avg else 0) by {
        assert avg * (CountTrue(a) + 1) == avg * CountTrue(a) + avg;
      }
    }
  }

  /** Handing over subtracts the average once per active person and nothing from frozen
      staff, whose final score is their current score. */
  lemma NextScoresTotal(staff: seq<Person>, final: seq<int>, avg: int)
    requires |final| == |staff|
    requires forall j :: 0 <= j < |staff| && IsFrozen(staff, j) ==> final[j] == staff[j].score
    ensures Sum(NextScores(staff, final, avg)) == Sum(final) - avg * ActiveCount(staff)
  {
    var next := NextScores(staff, final, avg);
    var active := ActiveFlags(staff);
    forall j | 0 <= j < |final| ensures next[j] == final[j] - (if active[j] then avg else 0) {
    }
    ShiftedSum(final, next, active, avg);
  }

  /**
   * Over one cycle the scores of the staff drift by less than one point per active person:
   * when every day is staffed, and frozen names are distinct from the others, the next
   * scores sum to the current scores plus the month's points less the average handed out,
   * and the rounding down of the average leaves between 0 and the active count minus one.
   */
  lemma CycleDrift(staff: seq<Person>, m: Month, weights: seq<int>, s: Schedule, avg: nat)
    requires |weights| == m.length && Sum(weights) >= 0
    requires ValidSchedule(AssignmentVars(staff, m), |staff|, m, s)
    requires forall i :: 0 <= i < |s| ==> s[i].Some?
    requires AvgMonthPoints(staff, Sum(weights)) == Some(avg)
    requires ActiveCount(staff) == |staff| - |FrozenKeys(staff)|
    ensures var current := CurrentScores(staff);
      var drift := Sum(NextScores(staff, FinalScores(current, s, weights), avg)) - Sum(current);
      0 <= drift < ActiveCount(staff)
  {
    var current := CurrentScores(staff);
    var final := FinalScores(current, s, weights);
    var d := ActiveCount(staff);
    var total := Sum(weights);
    assert Sum(NextScores(staff, final, avg)) == Sum(current) + total - avg * d by {
      FinalTotal(staff, m, weights, s);
      FrozenFinalIsCurrent(staff, m, weights, s);
      NextScoresTotal(staff, final, avg);
    }
    AvgRemainder(staff, total, avg);
  }

  /** Rounding the average down hands out all but fewer than `d` of the month's points. */
  lemma AvgRemainder(staff: seq<Person>, total: nat, avg: nat)
    requires AvgMonthPoints(staff, total) == Some(avg)
    requires ActiveCount(staff) == |staff| - |FrozenKeys(staff)|
    ensures 0 <= total - avg * ActiveCount(staff) < ActiveCount(staff)
  {
    RemainderBounds(total, avg, |staff| - |FrozenKeys(staff)|);
  }

  lemma RemainderBounds(total: int, avg: int, d: int)
    requires avg * d <= total < (avg + 1) * d
    ensures 0 <= total - avg * d < d
  {
    assert (avg + 1) * d == avg * d + d;
  }

  /** With every day staffed, the final scores add the whole month to the current ones. */
  lemma FinalTotal(staff: seq<Person>, m: Month, weights: seq<int>, s: Schedule)
    requires |weights| == |s| && UsesVars(AssignmentVars(staff, m), s)
    requires forall i :: 0 <= i < |s| ==> s[i].Some?
    ensures Sum(FinalScores(CurrentScores(staff), s, weights)) == Sum(CurrentScores(staff)) + Sum(weights)
  {
    var current := CurrentScores(staff);
    forall i | 0 <= i < |s| && s[i].Some? ensures s[i].value < |current| {
      assert (i, s[i].value) in AssignmentVars(staff, m);
    }
    ScoreConservation(current, s, weights);
    CoveredAll(s, weights);
  }

  lemma FrozenFinalIsCurrent(staff: seq<Person>, m: Month, weights: seq<int>, s: Schedule)
    requires |weights| == |s| && UsesVars(AssignmentVars(staff, m), s)
    ensures var final := FinalScores(CurrentScores(staff), s, weights);
      forall j :: 0 <= j < |staff| && IsFrozen(staff, j) ==> final[j] == staff[j].score
  {
    var final := FinalScores(CurrentScores(staff), s, weights);
    forall j | 0 <= j < |staff| && IsFrozen(staff, j) ensures final[j] == staff[j].score {
      FrozenNeverOnDuty(staff, m, s, j);
      NoDutyNoPoints(s, weights, j);
    }
  }

  lemma {:induction false} CoveredAll(s: Schedule, weights: seq<int>)
    requires |weights| == |s| && forall i :: 0 <= i < |s| ==> s[i].Some?
    ensures CoveredPoints(s, weights) == Sum(weights)
  {
    if s != [] {
      var k := |s| - 1;
      assert forall i :: 0 <= i < k ==> s[..k][i] == s[i];
      CoveredAll(s[..k], weights[..k]);
    }
  }

  /** Roster used to show the override mismatch: a frozen person whose name carries
      surrounding spaces, and one other person. */
  function PaddedStaff(): seq<Person>
  {
    [Person(" Ann ", "frozen", 5000), Person("Bob", "", 0)]
  }

  lemma PaddedStaffKeys()
    ensures FrozenKeys(PaddedStaff()) == {"ann"}
  {
    var staff := PaddedStaff();
    PaddedKey();
    PaddedLeaves();
    assert IsFrozenText(staff[0].leave) && !IsFrozenText(staff[1].leave);
  }

  lemma PaddedKey()
    ensures Key(" Ann ") == "ann"
  {
    assert Strip(" Ann ") == "Ann" by { StripPadded(" ", "Ann", " "); }
    assert Lower("Ann") == "ann";
  }

  lemma PaddedLeaves()
    ensures IsFrozenText("frozen") && !IsFrozenText("")
  {
    assert Strip("frozen") == "frozen" by { StripPadded("", "frozen", ""); }
    assert Strip("") == "" by { StripPadded("", "", ""); }
    assert Lower("frozen") == "frozen";
  }

  /** As written, the frozen person loses the average like everybody else; the intended
      behaviour keeps the current score. */
  lemma PaddedFrozenNameMismatch()
    ensures IsFrozen(PaddedStaff(), 0)
    ensures NextScoreAsWritten(PaddedStaff(), [5000, 38000], 38000, 0) == 5000 - 38000
    ensures NextScore(PaddedStaff(), [5000, 38000], 38000, 0) == 5000
  {
    PaddedStaffKeys();
    PaddedKey();
    assert Lower(" Ann ")[0] == ' ';
  }

  /** Whatever the padding, the intended override keeps every frozen person's score. */
  lemma FrozenKeepScore(staff: seq<Person>, m: Month, s: Schedule, weights: seq<int>, avg: int, j: nat)
    requires |weights| == |s| && j < |staff| && IsFrozen(staff, j)
    requires UsesVars(AssignmentVars(staff, m), s)
    ensures var final := FinalScores(CurrentScores(staff), s, weights);
      final[j] == staff[j].score && NextScore(staff, final, avg, j) == staff[j].score
  {
    FrozenNeverOnDuty(staff, m, s, j);
    NoDutyNoPoints(s, weights, j);
  }

  /** Staff who are not frozen carry their final score less the average. */
  lemma ActiveCarryOver(staff: seq<Person>, final: seq<int>, avg: int, j: nat)
    requires |final| == |staff| && j < |staff| && !IsFrozen(staff, j)
    ensures NextScore(staff, final, avg, j) == final[j] - avg
    ensures NextScore(staff, final, avg, j) < final[j] <==> avg > 0
  {
  }
}
