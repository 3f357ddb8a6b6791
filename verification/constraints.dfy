/**
 * The constraints posted to the CP-SAT model. A constraint is a list of assignment
 * variables (cells) with a cardinality bound; a solution is the set of variables set to true.
 */
module Constraints {
  import opened Common
  import opened Inputs
  import opened Calendar
  import opened Roster

  type Cell = (nat, nat)

  datatype Constraint =
    | ExactlyOne(cells: seq<Cell>)   // exactly one of the cells is true
    | AtMostOne(cells: seq<Cell>)    // the cells sum to at most one

  /** Number of cells set to true. */
  function Count(cells: seq<Cell>, on: set<Cell>): nat
  {
    if cells == [] then 0
    else Count(cells[..|cells| - 1], on) + (if cells[|cells| - 1] in on then 1 else 0)
  }

  lemma {:induction false} CountZero(cells: seq<Cell>, on: set<Cell>)
    requires forall p :: 0 <= p < |cells| ==> cells[p] !in on
    ensures Count(cells, on) == 0
  {
    if cells != [] {
      var init := cells[..|cells| - 1];
      assert forall p :: 0 <= p < |init| ==> init[p] == cells[p];
      CountZero(init, on);
    }
  }

  lemma {:induction false} CountPositive(cells: seq<Cell>, on: set<Cell>, p: nat)
    requires p < |cells| && cells[p] in on
    ensures Count(cells, on) >= 1
  {
    if p < |cells| - 1 {
      var init := cells[..|cells| - 1];
      assert init[p] == cells[p];
      CountPositive(init, on, p);
    }
  }

  lemma {:induction false} CountTwo(cells: seq<Cell>, on: set<Cell>, p: nat, q: nat)
    requires p < q < |cells| && cells[p] in on && cells[q] in on
    ensures Count(cells, on) >= 2
  {
    var init := cells[..|cells| - 1];
    assert init[p] == cells[p];
    if q == |cells| - 1 {
      CountPositive(init, on, p);
    } else {
      assert init[q] == cells[q];
      CountTwo(init, on, p, q);
    }
  }

  lemma {:induction false} CountAtMostOne(cells: seq<Cell>, on: set<Cell>)
    requires forall p, q :: 0 <= p < q < |cells| ==> !(cells[p] in on && cells[q] in on)
    ensures Count(cells, on) <= 1
  {
    if cells != [] {
      var init := cells[..|cells| - 1];
      assert forall p :: 0 <= p < |init| ==> init[p] == cells[p];
      if cells[|cells| - 1] in on {
        CountZero(init, on);
      } else {
        CountAtMostOne(init, on);
      }
    }
  }

  /** A cell set to true, when the count is positive. */
  lemma {:induction false} CountWitness(cells: seq<Cell>, on: set<Cell>) returns (p: nat)
    requires Count(cells, on) >= 1
    ensures p < |cells| && cells[p] in on
  {
    var init := cells[..|cells| - 1];
    if cells[|cells| - 1] in on {
      p := |cells| - 1;
    } else {
      p := CountWitness(init, on);
      assert init[p] == cells[p];
    }
  }

  predicate Holds(c: Constraint, on: set<Cell>)
  {
    match c
    case ExactlyOne(cells) => Count(cells, on) == 1
    case AtMostOne(cells) => Count(cells, on) <= 1
  }

  /** Variables of day index `i` for staff below `n`, by increasing staff index. */
  function DayCells(vars: set<Cell>, i: nat, n: nat): seq<Cell>
  {
    if n == 0 then []
    else DayCells(vars, i, n - 1) + (if (i, n - 1) in vars then [(i, n - 1)] else [])
  }

  lemma {:induction false} DayCellsSpec(vars: set<Cell>, i: nat, n: nat)
    ensures var r := DayCells(vars, i, n);
      (forall c :: c in r <==> c.0 == i && c.1 < n && c in vars) &&
      (forall p, q :: 0 <= p < q < |r| ==> r[p].1 < r[q].1)
  {
    if n > 0 {
      DayCellsSpec(vars, i, n - 1);
    }
  }

  /** Variables of person `j` on the days of week `w` among the first `k` days, by date. */
  function WeekCells(vars: set<Cell>, m: Month, j: nat, w: nat, k: nat): seq<Cell>
  {
    if k == 0 then []
    else WeekCells(vars, m, j, w, k - 1) + (if WeekOf(m, k) == w && (k - 1, j) in vars then [(k - 1, j)] else [])
  }

  lemma {:induction false} WeekCellsSpec(vars: set<Cell>, m: Month, j: nat, w: nat, k: nat)
    ensures var r := WeekCells(vars, m, j, w, k);
      (forall c :: c in r <==> c.1 == j && c.0 < k && WeekOf(m, c.0 + 1) == w && c in vars) &&
      (forall p, q :: 0 <= p < q < |r| ==> r[p].0 < r[q].0)
  {
    if k > 0 {
      WeekCellsSpec(vars, m, j, w, k - 1);
    }
  }

  /** Two days of person `j` closer than MIN_GAP days, both with a variable. */
  predicate PairCond(staff: seq<Person>, vars: set<Cell>, len: nat, i: nat, k: nat, j: nat)
  {
    j < |staff| && !IsFrozen(staff, j) && i < len && k < len && i != k &&
    Abs(k - i) < MIN_GAP && (i, j) in vars && (k, j) in vars
  }

  ghost predicate DayPosted(vars: set<Cell>, n: nat, len: nat, c: Constraint)
  {
    exists i: nat :: i < len && DayCells(vars, i, n) != [] && c == ExactlyOne(DayCells(vars, i, n))
  }

  ghost predicate WeekPosted(vars: set<Cell>, n: nat, m: Month, c: Constraint)
  {
    exists j: nat, w: nat :: j < n && WeekCells(vars, m, j, w, m.length) != [] &&
      c == AtMostOne(WeekCells(vars, m, j, w, m.length))
  }

  ghost predicate PairPosted(staff: seq<Person>, vars: set<Cell>, len: nat, c: Constraint)
  {
    exists i: nat, k: nat, j: nat :: PairCond(staff, vars, len, i, k, j) && c == AtMostOne([(i, j), (k, j)])
  }

  ghost predicate Posted(staff: seq<Person>, m: Month, vars: set<Cell>, c: Constraint)
  {
    DayPosted(vars, |staff|, m.length, c) || WeekPosted(vars, |staff|, m, c) ||
    PairPosted(staff, vars, m.length, c)
  }

  lemma DayCellsNonEmpty(vars: set<Cell>, n: nat, i: nat)
    ensures DayCells(vars, i, n) != [] <==> HasEligible(vars, n, i)
  {
    var r := DayCells(vars, i, n);
    DayCellsSpec(vars, i, n);
    if r != [] {
      assert r[0] in r;
    }
    if HasEligible(vars, n, i) {
      var j: nat :| j < n && (i, j) in vars;
      assert (i, j) in r;
    }
  }

  /** The variables of day index `i`, staff by staff. */
  method CollectDayCells(vars: set<Cell>, i: nat, n: nat) returns (allowed: seq<Cell>)
    ensures allowed == DayCells(vars, i, n)
  {
    allowed := [];
    var j: nat := 0;
    while j < n
      invariant j <= n
      invariant allowed == DayCells(vars, i, j)
    {
      if (i, j) in vars {
        allowed := allowed + [(i, j)];
      }
      j := j + 1;
    }
  }

  /** The variables of person `j` in week `w`, day by day. */
  method CollectWeekCells(vars: set<Cell>, m: Month, j: nat, w: nat) returns (cells: seq<Cell>)
    ensures cells == WeekCells(vars, m, j, w, m.length)
  {
    cells := [];
    var d: nat := 0;
    while d < m.length
      invariant d <= m.length
      invariant cells == WeekCells(vars, m, j, w, d)
    {
      if WeekOf(m, d + 1) == w && (d, j) in vars {
        cells := cells + [(d, j)];
      }
      d := d + 1;
    }
  }

  /** One exactly-one constraint per day that has a variable; days without one are
      reported, in date order. */
  method PostDayConstraints(vars: set<Cell>, n: nat, m: Month) returns (cs: seq<Constraint>, unstaffed: seq<nat>)
    ensures forall c :: c in cs <==> DayPosted(vars, n, m.length, c)
    ensures forall d :: d in unstaffed <==> 1 <= d <= m.length && !HasEligible(vars, n, d - 1)
    ensures forall p, q :: 0 <= p < q < |unstaffed| ==> unstaffed[p] < unstaffed[q]
  {
    cs, unstaffed := [], [];
    var i: nat := 0;
    while i < m.length
      invariant i <= m.length
      invariant forall c :: c in cs ==> DayPosted(vars, n, m.length, c)
      invariant forall a: nat :: a < i && DayCells(vars, a, n) != [] ==> ExactlyOne(DayCells(vars, a, n)) in cs
      invariant forall d :: d in unstaffed <==> 1 <= d <= i && !HasEligible(vars, n, d - 1)
      invariant forall p, q :: 0 <= p < q < |unstaffed| ==> unstaffed[p] < unstaffed[q]
      invariant forall p :: 0 <= p < |unstaffed| ==> unstaffed[p] <= i
    {
      var allowed := CollectDayCells(vars, i, n);
      DayCellsNonEmpty(vars, n, i);
      if allowed != [] {
        assert DayPosted(vars, n, m.length, ExactlyOne(allowed));
        cs := cs + [ExactlyOne(allowed)];
      } else {
        unstaffed := unstaffed + [i + 1];
      }
      i := i + 1;
    }
    forall c | DayPosted(vars, n, m.length, c) ensures c in cs {
      var a: nat :| a < m.length && DayCells(vars, a, n) != [] && c == ExactlyOne(DayCells(vars, a, n));
    }
  }

  /** Weeks after the week of the last day have no cells. */
  lemma {:induction false} WeekCellsBeyond(vars: set<Cell>, m: Month, j: nat, w: nat, k: nat)
    requires k <= m.length && 1 <= m.length && w > WeekOf(m, m.length)
    ensures WeekCells(vars, m, j, w, k) == []
  {
    if k > 0 {
      WeekCellsBeyond(vars, m, j, w, k - 1);
      assert WeekOf(m, k) <= WeekOf(m, m.length);
    }
  }

  /** For each person and each week, at most one of that person's variables in the week. */
  method PostWeekConstraints(vars: set<Cell>, n: nat, m: Month) returns (cs: seq<Constraint>)
    requires ValidMonth(m)
    ensures forall c :: c in cs <==> WeekPosted(vars, n, m, c)
  {
    cs := [];
    var last := WeekOf(m, m.length);
    var j: nat := 0;
    while j < n
      invariant j <= n
      invariant forall c :: c in cs ==> WeekPosted(vars, n, m, c)
      invariant forall b: nat, w: nat :: b < j && WeekCells(vars, m, b, w, m.length) != [] ==>
        AtMostOne(WeekCells(vars, m, b, w, m.length)) in cs
    {
      var w: nat := 0;
      while w <= last
        invariant w <= last + 1
        invariant forall c :: c in cs ==> WeekPosted(vars, n, m, c)
        invariant forall b: nat, v: nat :: (b < j || (b == j && v < w)) && WeekCells(vars, m, b, v, m.length) != [] ==>
          AtMostOne(WeekCells(vars, m, b, v, m.length)) in cs
      {
        var cells := CollectWeekCells(vars, m, j, w);
        if cells != [] {
          assert WeekPosted(vars, n, m, AtMostOne(cells));
          cs := cs + [AtMostOne(cells)];
        }
        w := w + 1;
      }
      forall v: nat | v > last ensures WeekCells(vars, m, j, v, m.length) == [] {
        WeekCellsBeyond(vars, m, j, v, m.length);
      }
      j := j + 1;
    }
    forall c | WeekPosted(vars, n, m, c) ensures c in cs {
      var b: nat, v: nat :| b < n && WeekCells(vars, m, b, v, m.length) != [] &&
        c == AtMostOne(WeekCells(vars, m, b, v, m.length));
    }
  }

  /** For each person who is not frozen, at most one of any two days closer than MIN_GAP. */
  method PostGapConstraints(staff: seq<Person>, vars: set<Cell>, m: Month) returns (cs: seq<Constraint>)
    ensures forall c :: c in cs <==> PairPosted(staff, vars, m.length, c)
  {
    cs := [];
    var j: nat := 0;
    while j < |staff|
      invariant j <= |staff|
      invariant forall c :: c in cs ==> PairPosted(staff, vars, m.length, c)
      invariant forall i: nat, k: nat, b: nat :: PairCond(staff, vars, m.length, i, k, b) && b < j ==>
        AtMostOne([(i, b), (k, b)]) in cs
    {
      if !IsFrozen(staff, j) {
        var i: nat := 0;
        while i < m.length
          invariant i <= m.length
          invariant forall c :: c in cs ==> PairPosted(staff, vars, m.length, c)
          invariant forall a: nat, k: nat, b: nat :: PairCond(staff, vars, m.length, a, k, b) && (b < j || (b == j && a < i)) ==>
            AtMostOne([(a, b), (k, b)]) in cs
        {
          var k: nat := 0;
          while k < m.length
            invariant k <= m.length
            invariant forall c :: c in cs ==> PairPosted(staff, vars, m.length, c)
            invariant forall a: nat, e: nat, b: nat ::
              (PairCond(staff, vars, m.length, a, e, b) && (b < j || (b == j && (a < i || (a == i && e < k))))) ==>
              AtMostOne([(a, b), (e, b)]) in cs
          {
            if Abs(k - i) < MIN_GAP && i != k && (i, j) in vars && (k, j) in vars {
              assert PairCond(staff, vars, m.length, i, k, j);
              cs := cs + [AtMostOne([(i, j), (k, j)])];
            }
            k := k + 1;
          }
          i := i + 1;
        }
      }
      j := j + 1;
    }
    forall c | PairPosted(staff, vars, m.length, c) ensures c in cs {
      var a: nat, e: nat, b: nat :| PairCond(staff, vars, m.length, a, e, b) && c == AtMostOne([(a, b), (e, b)]);
    }
  }

  /** The whole constraint list, and the days reported as having no available staff. */
  method PostConstraints(staff: seq<Person>, m: Month, vars: set<Cell>) returns (cs: seq<Constraint>, unstaffed: seq<nat>)
    requires ValidMonth(m)
    ensures forall c :: c in cs <==> Posted(staff, m, vars, c)
    ensures forall d :: d in unstaffed <==> 1 <= d <= m.length && !HasEligible(vars, |staff|, d - 1)
  {
    var days, weeks, gaps;
    days, unstaffed := PostDayConstraints(vars, |staff|, m);
    weeks := PostWeekConstraints(vars, |staff|, m);
    gaps := PostGapConstraints(staff, vars, m);
    cs := days + weeks + gaps;
  }
}
