/**
 * The assignment variables of the constraint model: one Boolean per (day index, staff index)
 * pair for which the person may be put on duty that day.
 */
module Eligibility {
  import opened Inputs
  import opened Calendar

  /** Person `j` may take day `day` (1-based) unless frozen or on leave that day. */
  predicate Eligible(staff: seq<Person>, j: nat, day: nat)
    requires j < |staff|
  {
    !IsFrozen(staff, j) && day !in BlockedDays(staff[j].leave)
  }

  /** The pairs (day index, staff index) that receive a variable. */
  function AssignmentVars(staff: seq<Person>, m: Month): (vars: set<(nat, nat)>)
    ensures forall i: nat, j: nat :: (i, j) in vars <==>
      i < m.length && j < |staff| && Eligible(staff, j, i + 1)
  {
    set i: nat, j: nat | i < m.length && j < |staff| && Eligible(staff, j, i + 1) :: (i, j)
  }

  /** Walks every day and every person, skipping frozen staff and blocked days. */
  method BuildAssignmentVars(staff: seq<Person>, m: Month) returns (vars: set<(nat, nat)>)
    ensures forall i: nat, j: nat :: (i, j) in vars <==>
      i < m.length && j < |staff| && !IsFrozen(staff, j) && i + 1 !in BlockedDays(staff[j].leave)
    ensures vars == AssignmentVars(staff, m)
  {
    vars := {};
    var i: nat := 0;
    while i < m.length
      invariant i <= m.length
      invariant forall a: nat, b: nat :: (a, b) in vars <==> a < i && b < |staff| && Eligible(staff, b, a + 1)
    {
      var j: nat := 0;
      while j < |staff|
        invariant j <= |staff|
        invariant forall a: nat, b: nat :: (a, b) in vars <==>
          (a < i && b < |staff| && Eligible(staff, b, a + 1)) || (a == i && b < j && Eligible(staff, b, a + 1))
      {
        if !IsFrozen(staff, j) {
          var blocked := BlockedDays(staff[j].leave);
          if i + 1 !in blocked {
            vars := vars + {(i, j)};
          }
        }
        j := j + 1;
      }
      i := i + 1;
    }
    var spec := AssignmentVars(staff, m);
    forall p | p in vars ensures p in spec { assert (p.0, p.1) in vars; }
    forall p | p in spec ensures p in vars { assert (p.0, p.1) in spec; }
  }

  /** A frozen person receives no variable at all. */
  lemma FrozenHaveNoVars(staff: seq<Person>, m: Month, j: nat)
    requires j < |staff| && IsFrozen(staff, j)
    ensures forall i: nat :: (i, j) !in AssignmentVars(staff, m)
  {
  }

  /** A person whose leave lists day `d` has no variable for that day. */
  lemma LeaveBlocksDay(staff: seq<Person>, m: Month, j: nat, d: nat)
    requires j < |staff| && 1 <= d && d in BlockedDays(staff[j].leave)
    ensures (d - 1, j) !in AssignmentVars(staff, m)
  {
  }
}
