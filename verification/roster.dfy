/**
 * Duty schedules and the rules a valid one obeys. A schedule holds, for each day index
 * `i` (day `i + 1` of the month), the index of the staff member on duty, if any.
 */
module Roster {
  import opened Common
  import opened Calendar

  /** Two duties of one person must lie at least this many days apart. */
  const MIN_GAP: nat := 4

  type Schedule = seq<Option<nat>>

  /** Week number within the month; days share a number exactly when they share a
      Monday-to-Sunday week. */
  function WeekOf(m: Month, day: nat): nat
    requires 1 <= day
  {
    (m.firstWeekday + day - 1) / 7
  }

  /** Two days, the first no later than the second, share a week number exactly when the
      second falls no later than the Sunday of the first one's week. */
  lemma SameWeekUntilSunday(m: Month, d1: nat, d2: nat)
    requires 1 <= d1 <= d2
    ensures WeekOf(m, d1) == WeekOf(m, d2) <==> d2 - d1 <= 6 - WeekdayOf(m, d1)
  {
    var a := m.firstWeekday + d1 - 1;
    var q, r := a / 7, a % 7;
    assert a == 7 * q + r;
    var b := a + (d2 - d1);
    if d2 - d1 <= 6 - r {
      assert 7 * q <= b < 7 * q + 7;
    } else {
      assert b >= 7 * (q + 1);
    }
  }

  /** Some person below `n` has a variable for day index `i`. */
  predicate HasEligible(vars: set<(nat, nat)>, n: nat, i: nat)
  {
    exists j: nat :: j < n && (i, j) in vars
  }

  /** Every duty uses an existing assignment variable. */
  predicate UsesVars(vars: set<(nat, nat)>, s: Schedule)
  {
    forall i :: 0 <= i < |s| && s[i].Some? ==> (i, s[i].value) in vars
  }

  /** Exactly one person on a day that has an eligible person, nobody otherwise. */
  predicate DayRule(vars: set<(nat, nat)>, n: nat, s: Schedule)
  {
    forall i :: 0 <= i < |s| ==> (s[i].Some? <==> HasEligible(vars, n, i))
  }

  /** Nobody has two duties in one week. */
  predicate WeekRule(m: Month, s: Schedule)
  {
    forall i, k :: 0 <= i < k < |s| && s[i].Some? && s[i] == s[k] ==> WeekOf(m, i + 1) != WeekOf(m, k + 1)
  }

  /** Two duties of one person are at least MIN_GAP days apart. */
  predicate GapRule(s: Schedule)
  {
    forall i, k :: 0 <= i < k < |s| && s[i].Some? && s[i] == s[k] ==> k - i >= MIN_GAP
  }

  predicate ValidSchedule(vars: set<(nat, nat)>, n: nat, m: Month, s: Schedule)
  {
    |s| == m.length && UsesVars(vars, s) && DayRule(vars, n, s) && WeekRule(m, s) && GapRule(s)
  }

  /** The assignment variables a schedule sets to true. */
  function Selected(s: Schedule): (on: set<(nat, nat)>)
    ensures forall i: nat, j: nat :: (i, j) in on <==> i < |s| && s[i] == Some(j)
  {
    set i: nat | i < |s| && s[i].Some? :: (i, s[i].value)
  }

  /** With fewer than seven staff, a full Monday-to-Sunday week in which every day has an
      eligible person cannot be covered: each day needs a different person. */
  lemma {:induction false} FullWeekNeedsSeven(vars: set<(nat, nat)>, n: nat, m: Month, s: Schedule, start: nat)
    requires ValidSchedule(vars, n, m, s)
    requires forall i, j :: (i, j) in vars ==> j < n
    requires start + 7 <= |s| && (m.firstWeekday + start) % 7 == 0
    requires forall i :: start <= i < start + 7 ==> HasEligible(vars, n, i)
    ensures n >= 7
  {
    var duty := seq(7, p requires 0 <= p < 7 => s[start + p].value);
    forall p | 0 <= p < 7 ensures duty[p] < n {
      assert (start + p, duty[p]) in vars;
    }
    forall p, q | 0 <= p < q < 7 ensures duty[p] != duty[q] {
      assert WeekOf(m, start + p + 1) == WeekOf(m, start + q + 1);
    }
    DistinctBelow(duty, n);
  }

  /** Pigeonhole: pairwise different numbers below `n` number at most `n`. */
  lemma {:induction false} DistinctBelow(xs: seq<nat>, n: nat)
    requires forall p, q :: 0 <= p < q < |xs| ==> xs[p] != xs[q]
    requires forall p :: 0 <= p < |xs| ==> xs[p] < n
    ensures |xs| <= n
    decreases n
  {
    if xs == [] {
    } else if p :| 0 <= p < |xs| && xs[p] == n - 1 {
      var ys := xs[..p] + xs[p + 1..];
      forall q | 0 <= q < |ys| ensures ys[q] == xs[if q < p then q else q + 1] {
      }
      forall q, r | 0 <= q < r < |ys| ensures ys[q] != ys[r] {
        assert ys[q] == xs[if q < p then q else q + 1];
        assert ys[r] == xs[if r < p then r else r + 1];
      }
      forall q | 0 <= q < |ys| ensures ys[q] < n - 1 {
        var at := if q < p then q else q + 1;
        assert ys[q] == xs[at] && at != p;
        assert xs[at] != xs[p] by {
          if at < p {} else {}
        }
      }
      DistinctBelow(ys, n - 1);
    } else {
      assert xs[0] < n;
      DistinctBelow(xs, n - 1);
    }
  }

  /** Four staff who are eligible every day of a 28-day month starting on a Monday: no
      schedule satisfies the rules, since the first week alone needs seven people. */
  lemma FourStaffNoSchedule(vars: set<(nat, nat)>, s: Schedule)
    requires forall i: nat, j: nat :: (i, j) in vars <==> i < 28 && j < 4
    ensures !ValidSchedule(vars, 4, Month(0, 28), s)
  {
    if ValidSchedule(vars, 4, Month(0, 28), s) {
      forall i | 0 <= i < 7 ensures HasEligible(vars, 4, i) {
        assert (i, 0) in vars;
      }
      FullWeekNeedsSeven(vars, 4, Month(0, 28), s, 0);
    }
  }

  /** Day index `i` uses an existing variable and is staffed exactly when someone is eligible. */
  predicate DayOk(vars: set<(nat, nat)>, n: nat, s: Schedule, i: nat)
    requires i < |s|
  {
    (s[i].Some? ==> (i, s[i].value) in vars) && (s[i].Some? <==> HasEligible(vars, n, i))
  }

  /** Day indices `i` and `k` do not give one person two duties in a week or closer than
      MIN_GAP days. */
  predicate PairOk(m: Month, s: Schedule, i: nat, k: nat)
    requires i < k < |s|
  {
    s[i].Some? && s[i] == s[k] ==> WeekOf(m, i + 1) != WeekOf(m, k + 1) && k - i >= MIN_GAP
  }

  /** Tests whether anyone below `n` has a variable for day index `i`. */
  method FindEligible(vars: set<(nat, nat)>, n: nat, i: nat) returns (found: bool)
    ensures found <==> HasEligible(vars, n, i)
  {
    var j := 0;
    while j < n
      invariant j <= n
      invariant forall j': nat :: j' < j ==> (i, j') !in vars
    {
      if (i, j) in vars {
        return true;
      }
      j := j + 1;
    }
    return false;
  }

  /** Tests day index `i` against every later day. */
  method CheckPairsFrom(m: Month, s: Schedule, i: nat) returns (ok: bool)
    requires i < |s|
    ensures ok <==> forall k :: i < k < |s| ==> PairOk(m, s, i, k)
  {
    var k := i + 1;
    while k < |s|
      invariant i < k <= |s|
      invariant forall k' :: i < k' < k ==> PairOk(m, s, i, k')
    {
      if s[i].Some? && s[i] == s[k] && (WeekOf(m, i + 1) == WeekOf(m, k + 1) || k - i < MIN_GAP) {
        assert !PairOk(m, s, i, k);
        return false;
      }
      k := k + 1;
    }
    return true;
  }

  /** Decides whether a candidate schedule satisfies every hard rule the solver is given. */
  method CheckSchedule(vars: set<(nat, nat)>, n: nat, m: Month, s: Schedule) returns (ok: bool)
    ensures ok <==> ValidSchedule(vars, n, m, s)
  {
    if |s| != m.length {
      return false;
    }
    var i := 0;
    while i < |s|
      invariant i <= |s|
      invariant forall i' :: 0 <= i' < i ==> DayOk(vars, n, s, i')
    {
      var staffable := FindEligible(vars, n, i);
      if (s[i].Some? && (i, s[i].value) !in vars) || s[i].Some? != staffable {
        ValidDays(vars, n, m, s, i);
        return false;
      }
      i := i + 1;
    }
    i := 0;
    while i < |s|
      invariant i <= |s|
      invariant forall i', k :: 0 <= i' < i && i' < k < |s| ==> PairOk(m, s, i', k)
    {
      var pairs := CheckPairsFrom(m, s, i);
      if !pairs {
        var k :| i < k < |s| && !PairOk(m, s, i, k);
        ValidPair(vars, n, m, s, i, k);
        return false;
      }
      i := i + 1;
    }
    ValidByParts(vars, n, m, s);
    return true;
  }

  lemma ValidDays(vars: set<(nat, nat)>, n: nat, m: Month, s: Schedule, i: nat)
    requires i < |s|
    ensures ValidSchedule(vars, n, m, s) ==> DayOk(vars, n, s, i)
  {
  }

  lemma ValidPair(vars: set<(nat, nat)>, n: nat, m: Month, s: Schedule, i: nat, k: nat)
    requires i < k < |s|
    ensures ValidSchedule(vars, n, m, s) ==> PairOk(m, s, i, k)
  {
  }

  lemma ValidByParts(vars: set<(nat, nat)>, n: nat, m: Month, s: Schedule)
    requires |s| == m.length
    requires forall i :: 0 <= i < |s| ==> DayOk(vars, n, s, i)
    requires forall i, k :: 0 <= i < k < |s| ==> PairOk(m, s, i, k)
    ensures ValidSchedule(vars, n, m, s)
  {
    forall i | 0 <= i < |s| ensures (s[i].Some? ==> (i, s[i].value) in vars) && (s[i].Some? <==> HasEligible(vars, n, i)) {
      assert DayOk(vars, n, s, i);
    }
    forall i, k | 0 <= i < k < |s| && s[i].Some? && s[i] == s[k]
      ensures WeekOf(m, i + 1) != WeekOf(m, k + 1) && k - i >= MIN_GAP
    {
      assert PairOk(m, s, i, k);
    }
  }
}
