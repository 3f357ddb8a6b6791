/**
 * What the posted constraints mean: a schedule satisfies all of them exactly when it is a
 * valid schedule, and every solution of the constraint model is the variable set of a schedule.
 */
module Solutions {
  import opened Common
  import opened Inputs
  import opened Calendar
  import opened Eligibility
  import opened Roster
  import opened Constraints

  /** Variables exist only for days of the month and for staff who are not frozen. */
  ghost predicate VarsWellFormed(staff: seq<Person>, m: Month, vars: set<Cell>)
  {
    forall i: nat, j: nat :: (i, j) in vars ==> i < m.length && j < |staff| && !IsFrozen(staff, j)
  }

  lemma AssignmentVarsWellFormed(staff: seq<Person>, m: Month)
    ensures VarsWellFormed(staff, m, AssignmentVars(staff, m))
  {
  }

  /** Every posted constraint holds for the variables set to true. */
  ghost predicate AllHold(staff: seq<Person>, m: Month, vars: set<Cell>, on: set<Cell>)
  {
    forall c :: Posted(staff, m, vars, c) ==> Holds(c, on)
  }

  /** The constraint model accepts a schedule exactly when the schedule is valid. */
  lemma ScheduleSolvesIffValid(staff: seq<Person>, m: Month, vars: set<Cell>, s: Schedule)
    requires VarsWellFormed(staff, m, vars)
    requires |s| == m.length && UsesVars(vars, s)
    ensures AllHold(staff, m, vars, Selected(s)) <==> ValidSchedule(vars, |staff|, m, s)
  {
    if ValidSchedule(vars, |staff|, m, s) {
      forall c | Posted(staff, m, vars, c) ensures Holds(c, Selected(s)) {
        if DayPosted(vars, |staff|, m.length, c) {
          ValidDayHolds(staff, m, vars, s, c);
        } else if WeekPosted(vars, |staff|, m, c) {
          ValidWeekHolds(staff, m, vars, s, c);
        } else {
          ValidPairHolds(staff, m, vars, s, c);
        }
      }
    }
    if AllHold(staff, m, vars, Selected(s)) {
      HoldsDayRule(staff, m, vars, s);
      HoldsWeekRule(staff, m, vars, s);
      HoldsGapRule(staff, m, vars, s);
    }
  }

  lemma ValidDayHolds(staff: seq<Person>, m: Month, vars: set<Cell>, s: Schedule, c: Constraint)
    requires VarsWellFormed(staff, m, vars) && ValidSchedule(vars, |staff|, m, s)
    requires DayPosted(vars, |staff|, m.length, c)
    ensures Holds(c, Selected(s))
  {
    var n := |staff|;
    var i: nat :| i < m.length && DayCells(vars, i, n) != [] && c == ExactlyOne(DayCells(vars, i, n));
    var cells := DayCells(vars, i, n);
    var on := Selected(s);
    DayCellsSpec(vars, i, n);
    DayCellsNonEmpty(vars, n, i);
    var j := s[i].value;
    assert (i, j) in cells;
    var p :| 0 <= p < |cells| && cells[p] == (i, j);
    CountPositive(cells, on, p);
    forall p, q | 0 <= p < q < |cells| ensures !(cells[p] in on && cells[q] in on) {
      assert cells[p] in cells && cells[q] in cells;
    }
    CountAtMostOne(cells, on);
  }

  lemma ValidWeekHolds(staff: seq<Person>, m: Month, vars: set<Cell>, s: Schedule, c: Constraint)
    requires VarsWellFormed(staff, m, vars) && ValidSchedule(vars, |staff|, m, s)
    requires WeekPosted(vars, |staff|, m, c)
    ensures Holds(c, Selected(s))
  {
    var j: nat, w: nat :| j < |staff| && WeekCells(vars, m, j, w, m.length) != [] &&
      c == AtMostOne(WeekCells(vars, m, j, w, m.length));
    var cells := WeekCells(vars, m, j, w, m.length);
    var on := Selected(s);
    WeekCellsSpec(vars, m, j, w, m.length);
    forall p, q | 0 <= p < q < |cells| ensures !(cells[p] in on && cells[q] in on) {
      assert cells[p] in cells && cells[q] in cells;
    }
    CountAtMostOne(cells, on);
  }

  lemma ValidPairHolds(staff: seq<Person>, m: Month, vars: set<Cell>, s: Schedule, c: Constraint)
    requires VarsWellFormed(staff, m, vars) && ValidSchedule(vars, |staff|, m, s)
    requires PairPosted(staff, vars, m.length, c)
    ensures Holds(c, Selected(s))
  {
    var i: nat, k: nat, j: nat :| PairCond(staff, vars, m.length, i, k, j) && c == AtMostOne([(i, j), (k, j)]);
    var cells := [(i, j), (k, j)];
    var on := Selected(s);
    assert !((i, j) in on && (k, j) in on);
    CountAtMostOne(cells, on);
  }

  lemma DayConstraintHolds(staff: seq<Person>, m: Month, vars: set<Cell>, on: set<Cell>, i: nat)
    requires AllHold(staff, m, vars, on)
    requires i < m.length && DayCells(vars, i, |staff|) != []
    ensures Count(DayCells(vars, i, |staff|), on) == 1
  {
    var c := ExactlyOne(DayCells(vars, i, |staff|));
    assert DayPosted(vars, |staff|, m.length, c);
    assert Posted(staff, m, vars, c);
  }

  lemma WeekConstraintHolds(staff: seq<Person>, m: Month, vars: set<Cell>, on: set<Cell>, j: nat, w: nat)
    requires AllHold(staff, m, vars, on)
    requires j < |staff| && WeekCells(vars, m, j, w, m.length) != []
    ensures Count(WeekCells(vars, m, j, w, m.length), on) <= 1
  {
    var c := AtMostOne(WeekCells(vars, m, j, w, m.length));
    assert WeekPosted(vars, |staff|, m, c);
    assert Posted(staff, m, vars, c);
  }

  lemma PairConstraintHolds(staff: seq<Person>, m: Month, vars: set<Cell>, on: set<Cell>, i: nat, k: nat, j: nat)
    requires AllHold(staff, m, vars, on)
    requires PairCond(staff, vars, m.length, i, k, j)
    ensures Count([(i, j), (k, j)], on) <= 1
  {
    var c := AtMostOne([(i, j), (k, j)]);
    assert PairPosted(staff, vars, m.length, c);
    assert Posted(staff, m, vars, c);
  }

  lemma HoldsDayRule(staff: seq<Person>, m: Month, vars: set<Cell>, s: Schedule)
    requires VarsWellFormed(staff, m, vars) && |s| == m.length && UsesVars(vars, s)
    requires AllHold(staff, m, vars, Selected(s))
    ensures DayRule(vars, |staff|, s)
  {
    var n := |staff|;
    var on := Selected(s);
    forall i | 0 <= i < |s| ensures s[i].Some? <==> HasEligible(vars, n, i) {
      if s[i].Some? {
        assert (i, s[i].value) in vars;
      }
      if HasEligible(vars, n, i) {
        var cells := DayCells(vars, i, n);
        DayCellsNonEmpty(vars, n, i);
        DayConstraintHolds(staff, m, vars, on, i);
        var p := CountWitness(cells, on);
        DayCellsSpec(vars, i, n);
        assert cells[p] in cells;
      }
    }
  }

  lemma HoldsWeekRule(staff: seq<Person>, m: Month, vars: set<Cell>, s: Schedule)
    requires VarsWellFormed(staff, m, vars) && |s| == m.length && UsesVars(vars, s)
    requires AllHold(staff, m, vars, Selected(s))
    ensures WeekRule(m, s)
  {
    forall i, k | 0 <= i < k < |s| && s[i].Some? && s[i] == s[k] ensures WeekOf(m, i + 1) != WeekOf(m, k + 1) {
      if WeekOf(m, i + 1) == WeekOf(m, k + 1) {
        SameWeekCount(staff, m, vars, s, i, k);
        WeekConstraintHolds(staff, m, vars, Selected(s), s[i].value, WeekOf(m, i + 1));
      }
    }
  }

  /** Two duties of one person in one week make two of that week's variables true. */
  lemma SameWeekCount(staff: seq<Person>, m: Month, vars: set<Cell>, s: Schedule, i: nat, k: nat)
    requires VarsWellFormed(staff, m, vars) && |s| == m.length && UsesVars(vars, s)
    requires i < k < |s| && s[i].Some? && s[i] == s[k] && WeekOf(m, i + 1) == WeekOf(m, k + 1)
    ensures s[i].value < |staff|
    ensures Count(WeekCells(vars, m, s[i].value, WeekOf(m, i + 1), m.length), Selected(s)) >= 2
  {
    var j := s[i].value;
    var w := WeekOf(m, i + 1);
    var cells := WeekCells(vars, m, j, w, m.length);
    var on := Selected(s);
    WeekCellsSpec(vars, m, j, w, m.length);
    assert (i, j) in vars && (k, j) in vars;
    assert (i, j) in cells && (k, j) in cells;
    var p :| 0 <= p < |cells| && cells[p] == (i, j);
    var q :| 0 <= q < |cells| && cells[q] == (k, j);
    assert p < q;
    CountTwo(cells, on, p, q);
  }

  lemma HoldsGapRule(staff: seq<Person>, m: Month, vars: set<Cell>, s: Schedule)
    requires VarsWellFormed(staff, m, vars) && |s| == m.length && UsesVars(vars, s)
    requires AllHold(staff, m, vars, Selected(s))
    ensures GapRule(s)
  {
    var on := Selected(s);
    forall i, k | 0 <= i < k < |s| && s[i].Some? && s[i] == s[k] ensures k - i >= MIN_GAP {
      if k - i < MIN_GAP {
        var j := s[i].value;
        var cells := [(i, j), (k, j)];
        assert (i, j) in vars && (k, j) in vars;
        assert PairCond(staff, vars, m.length, i, k, j);
        PairConstraintHolds(staff, m, vars, on, i, k, j);
        CountTwo(cells, on, 0, 1);
      }
    }
  }

  /** The person chosen for day index `i` among staff below `n`, if any variable of that day is true. */
  function Pick(on: set<Cell>, i: nat, n: nat): (r: Option<nat>)
    ensures r.Some? ==> r.value < n && (i, r.value) in on
    ensures r.None? ==> forall j: nat :: j < n ==> (i, j) !in on
  {
    if n == 0 then None
    else if (i, n - 1) in on then Some(n - 1)
    else Pick(on, i, n - 1)
  }

  /** Every solution of the constraint model sets the variables of exactly one schedule. */
  lemma SolutionIsSchedule(staff: seq<Person>, m: Month, vars: set<Cell>, on: set<Cell>)
    requires VarsWellFormed(staff, m, vars) && on <= vars
    requires AllHold(staff, m, vars, on)
    ensures var s := seq(m.length, i requires 0 <= i < m.length => Pick(on, i, |staff|));
      UsesVars(vars, s) && Selected(s) == on
  {
    var n := |staff|;
    var s := seq(m.length, i requires 0 <= i < m.length => Pick(on, i, n));
    forall i: nat, j: nat | (i, j) in on ensures i < |s| && s[i] == Some(j) {
      assert i < m.length && j < n;
      var r := Pick(on, i, n);
      assert s[i] == r;
      if r != Some(j) {
        OneTruePerDay(staff, m, vars, on, i, j, r.value);
      }
    }
    var sel := Selected(s);
    forall c | c in on ensures c in sel {
      assert (c.0, c.1) in on;
    }
    forall c | c in sel ensures c in on {
      assert (c.0, c.1) in sel;
    }
  }

  /** The day constraint of day index `i` lets at most one of its variables be true. */
  lemma OneTruePerDay(staff: seq<Person>, m: Month, vars: set<Cell>, on: set<Cell>, i: nat, a: nat, b: nat)
    requires VarsWellFormed(staff, m, vars) && on <= vars
    requires AllHold(staff, m, vars, on)
    requires (i, a) in on && (i, b) in on
    ensures a == b
  {
    var n := |staff|;
    var cells := DayCells(vars, i, n);
    DayCellsSpec(vars, i, n);
    if a != b {
      var lo, hi := if a < b then a else b, if a < b then b else a;
      assert (i, lo) in cells && (i, hi) in cells;
      var p :| 0 <= p < |cells| && cells[p] == (i, lo);
      var q :| 0 <= q < |cells| && cells[q] == (i, hi);
      assert p < q;
      CountTwo(cells, on, p, q);
      DayConstraintHolds(staff, m, vars, on, i);
    }
  }
}
