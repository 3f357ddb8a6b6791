/**
 * Standby allocation: after the duty schedule is fixed, every day gets a standby person,
 * chosen greedily among the staff who are not frozen, fewest standbys first, skipping
 * anybody with a duty of their own less than MIN_GAP days away.
 */
module Standby {
  import opened Common
  import opened Text
  import opened Inputs
  import opened Roster

  /** One line of the standby list; `None` is the "No eligible staff" entry. */
  datatype Entry = Entry(day: nat, standby: Option<string>)

  /** Stripped names of the first `k` staff who are not frozen, in staff order. */
  function CandidatesBelow(staff: seq<Person>, k: nat): seq<string>
    requires k <= |staff|
  {
    if k == 0 then []
    else if IsFrozen(staff, k - 1) then CandidatesBelow(staff, k - 1)
    else CandidatesBelow(staff, k - 1) + [Strip(staff[k - 1].name)]
  }

  function Candidates(staff: seq<Person>): seq<string>
  {
    CandidatesBelow(staff, |staff|)
  }

  /** The name key of every person, in staff order. */
  function StaffKeys(staff: seq<Person>): (keys: seq<string>)
    ensures |keys| == |staff| && forall j :: 0 <= j < |staff| ==> keys[j] == Key(staff[j].name)
  {
    seq(|staff|, j requires 0 <= j < |staff| => Key(staff[j].name))
  }

  /** Days (1-based) among the first `k` on which a person whose key is `key` is on duty,
      in date order; `keys` holds the key of every person. */
  function DutyDates(keys: seq<string>, s: Schedule, key: string, k: nat): seq<nat>
    requires k <= |s|
  {
    if k == 0 then []
    else
      var onDuty := s[k - 1].Some? && s[k - 1].value < |keys| && keys[s[k - 1].value] == key;
      if onDuty then DutyDates(keys, s, key, k - 1) + [k] else DutyDates(keys, s, key, k - 1)
  }

  /** Lookup in the duty-date table; a missing key has no dates. */
  function DatesOf(duties: map<string, seq<nat>>, key: string): seq<nat>
  {
    if key in duties then duties[key] else []
  }

  /** Some date in `dates` lies less than MIN_GAP days from `day`, scanning in list order. */
  predicate TooClose(dates: seq<nat>, day: nat)
  {
    dates != [] && (Abs(day - dates[0]) < MIN_GAP || TooClose(dates[1..], day))
  }

  lemma {:induction false} TooCloseSpec(dates: seq<nat>, day: nat)
    ensures TooClose(dates, day) <==> exists q :: 0 <= q < |dates| && Abs(day - dates[q]) < MIN_GAP
  {
    if dates != [] {
      TooCloseSpec(dates[1..], day);
      if TooClose(dates[1..], day) {
        var q :| 0 <= q < |dates[1..]| && Abs(day - dates[1..][q]) < MIN_GAP;
        assert Abs(day - dates[q + 1]) < MIN_GAP;
      }
      if q :| 0 <= q < |dates| && Abs(day - dates[q]) < MIN_GAP {
        if q > 0 {
          assert Abs(day - dates[1..][q - 1]) < MIN_GAP;
        }
      }
    }
  }

  /** `name` may stand by on `day`: no duty of the person with its key is closer than
      MIN_GAP days. */
  predicate Qualifies(keys: seq<string>, s: Schedule, name: string, day: nat)
  {
    !TooClose(DutyDates(keys, s, Lower(name), |s|), day)
  }

  function QualFlags(keys: seq<string>, s: Schedule, cands: seq<string>, day: nat): (ok: seq<bool>)
    ensures |ok| == |cands|
  {
    seq(|cands|, q requires 0 <= q < |cands| => Qualifies(keys, s, cands[q], day))
  }

  /** Candidate `p` comes no later than candidate `q` once the candidates are stably sorted
      by standby count. */
  predicate Precedes(cands: seq<string>, counts: map<string, nat>, p: nat, q: nat)
    requires p < |cands| && q < |cands| && cands[p] in counts && cands[q] in counts
  {
    counts[cands[p]] < counts[cands[q]] || (counts[cands[p]] == counts[cands[q]] && p <= q)
  }

  /** The first of the first `k` candidates, in stable count order, whose flag in `ok` is set. */
  function Best(cands: seq<string>, counts: map<string, nat>, ok: seq<bool>, k: nat): (r: Option<nat>)
    requires k <= |cands| == |ok| && forall c :: c in cands ==> c in counts
    ensures r.Some? ==> r.value < k
  {
    if k == 0 then None
    else
      var b := Best(cands, counts, ok, k - 1);
      if !ok[k - 1] then b
      else if b.None? || counts[cands[k - 1]] < counts[cands[b.value]] then Some(k - 1)
      else b
  }

  /** The pick is a candidate whose flag is set and who precedes every other such candidate
      in stable count order; there is no pick exactly when no flag is set. */
  lemma {:induction false} BestSpec(cands: seq<string>, counts: map<string, nat>, ok: seq<bool>, k: nat)
    requires k <= |cands| == |ok| && forall c :: c in cands ==> c in counts
    ensures var r := Best(cands, counts, ok, k);
      (r.Some? ==> ok[r.value] && forall q :: 0 <= q < k && ok[q] ==> Precedes(cands, counts, r.value, q)) &&
      (r.None? <==> forall q :: 0 <= q < k ==> !ok[q])
  {
    if k > 0 {
      BestSpec(cands, counts, ok, k - 1);
    }
  }

  function InitialCounts(cands: seq<string>): (counts: map<string, nat>)
    ensures forall c :: c in counts <==> c in cands
  {
    map c | c in cands :: 0
  }

  /** One day of the allocation: the pick for `day` is appended to the list and its count
      goes up by one. */
  function Step(keys: seq<string>, s: Schedule, cands: seq<string>, state: (seq<Entry>, map<string, nat>), day: nat)
    : (r: (seq<Entry>, map<string, nat>))
    requires forall c :: c in cands ==> c in state.1
    ensures |r.0| == |state.0| + 1
    ensures forall c :: c in r.1 <==> c in state.1
  {
    var pick := Best(cands, state.1, QualFlags(keys, s, cands, day), |cands|);
    if pick.None? then (state.0 + [Entry(day, None)], state.1)
    else
      var c := cands[pick.value];
      (state.0 + [Entry(day, Some(c))], state.1[c := state.1[c] + 1])
  }

  /** The standby list and counts after the first `k` days. */
  function Run(keys: seq<string>, s: Schedule, cands: seq<string>, k: nat): (r: (seq<Entry>, map<string, nat>))
    requires k <= |s|
    ensures |r.0| == k && forall c :: c in r.1 <==> c in cands
  {
    if k == 0 then ([], InitialCounts(cands))
    else Step(keys, s, cands, Run(keys, s, cands, k - 1), k)
  }

  /** Lists the stripped names of the staff who are not frozen. */
  method CollectCandidates(staff: seq<Person>) returns (cands: seq<string>)
    ensures cands == Candidates(staff)
  {
    cands := [];
    var j := 0;
    while j < |staff|
      invariant j <= |staff| && cands == CandidatesBelow(staff, j)
    {
      if !IsFrozen(staff, j) {
        cands := cands + [Strip(staff[j].name)];
      }
      j := j + 1;
    }
  }

  /** Groups the duty days by the key of the person on duty. */
  method BuildActualDuties(keys: seq<string>, s: Schedule) returns (duties: map<string, seq<nat>>)
    ensures forall key :: DatesOf(duties, key) == DutyDates(keys, s, key, |s|)
  {
    duties := map[];
    var i := 0;
    while i < |s|
      invariant i <= |s|
      invariant forall key :: DatesOf(duties, key) == DutyDates(keys, s, key, i)
    {
      if s[i].Some? && s[i].value < |keys| {
        var key := keys[s[i].value];
        duties := duties[key := DatesOf(duties, key) + [i + 1]];
      }
      i := i + 1;
    }
  }

  /** The initial standby counts: zero for every candidate. */
  method ZeroCounts(cands: seq<string>) returns (counts: map<string, nat>)
    ensures counts == InitialCounts(cands)
  {
    counts := map[];
    var p := 0;
    while p < |cands|
      invariant p <= |cands|
      invariant counts == map c | c in cands[..p] :: 0
    {
      assert cands[..p + 1] == cands[..p] + [cands[p]];
      counts := counts[cands[p] := 0];
      p := p + 1;
    }
    assert cands[..|cands|] == cands;
  }

  /** Scans the candidates for the one to put on standby on `day`. */
  method ChooseStandby(keys: seq<string>, s: Schedule, duties: map<string, seq<nat>>, cands: seq<string>,
                       counts: map<string, nat>, day: nat) returns (best: Option<nat>)
    requires forall key :: DatesOf(duties, key) == DutyDates(keys, s, key, |s|)
    requires forall c :: c in cands ==> c in counts
    ensures best == Best(cands, counts, QualFlags(keys, s, cands, day), |cands|)
  {
    ghost var ok := QualFlags(keys, s, cands, day);
    best := None;
    var q := 0;
    while q < |cands|
      invariant q <= |cands|
      invariant best == Best(cands, counts, ok, q)
    {
      var candidate := cands[q];
      var tooClose := TooClose(DatesOf(duties, Lower(candidate)), day);
      assert ok[q] == !tooClose by { FlagByTable(keys, s, duties, cands, day, q); }
      if !tooClose && (best.None? || counts[candidate] < counts[cands[best.value]]) {
        best := Some(q);
      }
      q := q + 1;
    }
  }

  lemma FlagByTable(keys: seq<string>, s: Schedule, duties: map<string, seq<nat>>, cands: seq<string>, day: nat, q: nat)
    requires forall key :: DatesOf(duties, key) == DutyDates(keys, s, key, |s|)
    requires q < |cands|
    ensures QualFlags(keys, s, cands, day)[q] == !TooClose(DatesOf(duties, Lower(cands[q])), day)
  {
  }

  /** Allocates the standby for `day` and updates the list and the counts. */
  method AllocateDay(keys: seq<string>, s: Schedule, duties: map<string, seq<nat>>, cands: seq<string>,
                     entries: seq<Entry>, counts: map<string, nat>, day: nat)
    returns (entries': seq<Entry>, counts': map<string, nat>)
    requires forall key :: DatesOf(duties, key) == DutyDates(keys, s, key, |s|)
    requires forall c :: c in cands ==> c in counts
    ensures (entries', counts') == Step(keys, s, cands, (entries, counts), day)
  {
    var best := ChooseStandby(keys, s, duties, cands, counts, day);
    if best.Some? {
      var chosen := cands[best.value];
      entries' := entries + [Entry(day, Some(chosen))];
      counts' := counts[chosen := counts[chosen] + 1];
    } else {
      entries' := entries + [Entry(day, None)];
      counts' := counts;
    }
  }

  /** Walks the days in date order, each time taking the first qualifying candidate in
      ascending standby-count order and raising that candidate's count. */
  method AllocateDays(keys: seq<string>, s: Schedule, duties: map<string, seq<nat>>, cands: seq<string>)
    returns (entries: seq<Entry>, counts: map<string, nat>)
    requires forall key :: DatesOf(duties, key) == DutyDates(keys, s, key, |s|)
    ensures (entries, counts) == Run(keys, s, cands, |s|)
  {
    counts := ZeroCounts(cands);
    entries := [];
    var i := 0;
    while i < |s|
      invariant i <= |s|
      invariant (entries, counts) == Run(keys, s, cands, i)
    {
      assert forall c :: c in cands ==> c in counts;
      entries, counts := AllocateDay(keys, s, duties, cands, entries, counts, i + 1);
      assert (entries, counts) == Run(keys, s, cands, i + 1);
      i := i + 1;
    }
  }

  /** The standby list of the month with every candidate's standby count. */
  method AllocateStandby(staff: seq<Person>, s: Schedule) returns (entries: seq<Entry>, counts: map<string, nat>)
    ensures (entries, counts) == Run(StaffKeys(staff), s, Candidates(staff), |s|)
  {
    var keys := StaffKeys(staff);
    var duties := BuildActualDuties(keys, s);
    var cands := CollectCandidates(staff);
    entries, counts := AllocateDays(keys, s, duties, cands);
  }
}
