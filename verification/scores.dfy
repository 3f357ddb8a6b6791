/**
 * Score reconciliation: after solving, each person's score is the current score plus the
 * points of the days on which that person is on duty. Scores are scaled by 1000.
 */
module Scores {
  import opened Common
  import opened Inputs
  import opened Roster

  /** The scaled current scores, in staff order. */
  function CurrentScores(staff: seq<Person>): (r: seq<int>)
    ensures |r| == |staff| && forall j :: 0 <= j < |staff| ==> r[j] == staff[j].score
  {
    seq(|staff|, j requires 0 <= j < |staff| => staff[j].score)
  }

  /** Points of the days of `s` on which person `j` is on duty. */
  function AssignedPoints(s: Schedule, weights: seq<int>, j: nat): int
    requires |weights| == |s|
  {
    if s == [] then 0
    else AssignedPoints(s[..|s| - 1], weights[..|s| - 1], j) + (if s[|s| - 1] == Some(j) then weights[|s| - 1] else 0)
  }

  function FinalScores(current: seq<int>, s: Schedule, weights: seq<int>): seq<int>
    requires |weights| == |s|
  {
    seq(|current|, j requires 0 <= j < |current| => current[j] + AssignedPoints(s, weights, j))
  }

  /** Points of all days that have someone on duty. */
  function CoveredPoints(s: Schedule, weights: seq<int>): int
    requires |weights| == |s|
  {
    if s == [] then 0
    else CoveredPoints(s[..|s| - 1], weights[..|s| - 1]) + (if s[|s| - 1].Some? then weights[|s| - 1] else 0)
  }

  /** Walks the days in date order and adds each day's points to the person on duty. */
  method ReconcileScores(current: seq<int>, s: Schedule, weights: seq<int>) returns (final: seq<int>)
    requires |weights| == |s|
    ensures |final| == |current|
    ensures forall j :: 0 <= j < |current| ==> final[j] == current[j] + AssignedPoints(s, weights, j)
    ensures final == FinalScores(current, s, weights)
  {
    final := current;
    var i := 0;
    while i < |s|
      invariant 0 <= i <= |s| && |final| == |current|
      invariant forall j :: 0 <= j < |final| ==> final[j] == current[j] + AssignedPoints(s[..i], weights[..i], j)
    {
      var j := 0;
      while j < |current|
        invariant 0 <= j <= |current| && |final| == |current|
        invariant forall b :: 0 <= b < |final| ==>
          final[b] == current[b] + AssignedPoints(s[..i], weights[..i], b) + (if b < j && s[i] == Some(b) then weights[i] else 0)
      {
        if s[i] == Some(j) {
          final := final[j := final[j] + weights[i]];
        }
        j := j + 1;
      }
      assert s[..i + 1][..i] == s[..i] && weights[..i + 1][..i] == weights[..i];
      i := i + 1;
    }
    assert s[..|s|] == s && weights[..|s|] == weights;
  }

  /** A person who is never on duty gains nothing. */
  lemma {:induction false} NoDutyNoPoints(s: Schedule, weights: seq<int>, j: nat)
    requires |weights| == |s|
    requires forall i :: 0 <= i < |s| ==> s[i] != Some(j)
    ensures AssignedPoints(s, weights, j) == 0
  {
    if s != [] {
      NoDutyNoPoints(s[..|s| - 1], weights[..|s| - 1], j);
    }
  }

  /** With non-negative weights a person gains between nothing and the whole month. */
  lemma {:induction false} AssignedPointsBounds(s: Schedule, weights: seq<int>, j: nat)
    requires |weights| == |s|
    requires forall i :: 0 <= i < |weights| ==> weights[i] >= 0
    ensures 0 <= AssignedPoints(s, weights, j) <= Sum(weights)
  {
    if s != [] {
      AssignedPointsBounds(s[..|s| - 1], weights[..|s| - 1], j);
    }
  }

  /** Every final score lies in the domain given to its solver variable: from the lowest
      current score less the month's points to the highest current score plus twice them. */
  lemma ScoreWithinDomain(current: seq<int>, s: Schedule, weights: seq<int>, j: nat)
    requires |weights| == |s| && j < |current|
    requires forall i :: 0 <= i < |weights| ==> weights[i] >= 0
    ensures var f := FinalScores(current, s, weights)[j];
      current[j] <= f <= current[j] + Sum(weights) &&
      MinOf(current) - Sum(weights) <= f <= MaxOf(current) + 2 * Sum(weights)
  {
    AssignedPointsBounds(s, weights, j);
    MinMaxBound(current, j);
  }

  function MinOf(xs: seq<int>): int
    requires xs != []
  {
    if |xs| == 1 then xs[0] else Min(MinOf(xs[..|xs| - 1]), xs[|xs| - 1])
  }

  function MaxOf(xs: seq<int>): int
    requires xs != []
  {
    if |xs| == 1 then xs[0] else Max(MaxOf(xs[..|xs| - 1]), xs[|xs| - 1])
  }

  function Min(a: int, b: int): int { if a <= b then a else b }
  function Max(a: int, b: int): int { if a >= b then a else b }

  lemma {:induction false} MinMaxBound(xs: seq<int>, j: nat)
    requires j < |xs|
    ensures MinOf(xs) <= xs[j] <= MaxOf(xs)
  {
    if |xs| > 1 && j < |xs| - 1 {
      MinMaxBound(xs[..|xs| - 1], j);
    }
  }

  /** Sum over the first `n` people of their assigned points. */
  function TotalAssigned(s: Schedule, weights: seq<int>, n: nat): int
    requires |weights| == |s|
  {
    if n == 0 then 0 else TotalAssigned(s, weights, n - 1) + AssignedPoints(s, weights, n - 1)
  }

  /** Extending the schedule by one day adds that day's points once, to its assignee. */
  lemma {:induction false} TotalAssignedStep(s: Schedule, weights: seq<int>, n: nat)
    requires |weights| == |s| && s != []
    ensures var last := s[|s| - 1];
      TotalAssigned(s, weights, n) ==
      TotalAssigned(s[..|s| - 1], weights[..|s| - 1], n) + (if last.Some? && last.value < n then weights[|s| - 1] else 0)
  {
    if n > 0 {
      TotalAssignedStep(s, weights, n - 1);
    }
  }

  /** Every point of a covered day goes to exactly one person. */
  lemma {:induction false} TotalAssignedCovered(s: Schedule, weights: seq<int>, n: nat)
    requires |weights| == |s|
    requires forall i :: 0 <= i < |s| && s[i].Some? ==> s[i].value < n
    ensures TotalAssigned(s, weights, n) == CoveredPoints(s, weights)
  {
    if s == [] {
      TotalAssignedEmpty(s, weights, n);
    } else {
      var init := s[..|s| - 1];
      assert forall i :: 0 <= i < |init| ==> init[i] == s[i];
      TotalAssignedCovered(init, weights[..|s| - 1], n);
      TotalAssignedStep(s, weights, n);
    }
  }

  lemma {:induction false} TotalAssignedEmpty(s: Schedule, weights: seq<int>, n: nat)
    requires |weights| == |s| && s == []
    ensures TotalAssigned(s, weights, n) == 0
  {
    if n > 0 {
      TotalAssignedEmpty(s, weights, n - 1);
    }
  }

  /** Reconciliation conserves points: the scores grow in total by exactly the points of
      the covered days. */
  lemma ScoreConservation(current: seq<int>, s: Schedule, weights: seq<int>)
    requires |weights| == |s|
    requires forall i :: 0 <= i < |s| && s[i].Some? ==> s[i].value < |current|
    ensures Sum(FinalScores(current, s, weights)) == Sum(current) + CoveredPoints(s, weights)
  {
    SumFinal(current, s, weights, |current|);
    assert current[..|current|] == current;
    assert FinalScores(current, s, weights)[..|current|] == FinalScores(current, s, weights);
    TotalAssignedCovered(s, weights, |current|);
  }

  lemma {:induction false} SumFinal(current: seq<int>, s: Schedule, weights: seq<int>, n: nat)
    requires |weights| == |s| && n <= |current|
    ensures Sum(FinalScores(current, s, weights)[..n]) == Sum(current[..n]) + TotalAssigned(s, weights, n)
  {
    if n > 0 {
      SumFinal(current, s, weights, n - 1);
      var f := FinalScores(current, s, weights);
      assert f[..n][..n - 1] == f[..n - 1];
      assert current[..n][..n - 1] == current[..n - 1];
    }
  }
}
