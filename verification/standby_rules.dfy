/**
 * What the standby allocation guarantees: one entry per day in date order, each pick the
 * first qualifying candidate in stable count order, a gap of at least MIN_GAP days from the
 * pick's own duties, counts that tally the list, and no frozen person ever on standby.
 */
module StandbyRules {
  import opened Common
  import opened Text
  import opened Inputs
  import opened Roster
  import opened Standby

  /** The pick for day `k`, given the counts after the days before it. */
  function PickOf(keys: seq<string>, s: Schedule, cands: seq<string>, k: nat): Option<nat>
    requires 1 <= k <= |s|
  {
    Best(cands, Run(keys, s, cands, k - 1).1, QualFlags(keys, s, cands, k), |cands|)
  }

  /** Day `k` appends exactly one entry for `k`, and only the picked candidate's count rises,
      by one. */
  lemma RunStep(keys: seq<string>, s: Schedule, cands: seq<string>, k: nat)
    requires 1 <= k <= |s|
    ensures var prev, cur, p := Run(keys, s, cands, k - 1), Run(keys, s, cands, k), PickOf(keys, s, cands, k);
      cur.0 == prev.0 + [Entry(k, if p.Some? then Some(cands[p.value]) else None)] &&
      (p.None? ==> cur.1 == prev.1) &&
      (p.Some? ==> cur.1 == prev.1[cands[p.value] := prev.1[cands[p.value]] + 1])
  {
  }

  /** Earlier days' entries are never revised. */
  lemma {:induction false} RunPrefix(keys: seq<string>, s: Schedule, cands: seq<string>, k: nat, k': nat)
    requires k <= k' <= |s|
    ensures Run(keys, s, cands, k).0 == Run(keys, s, cands, k').0[..k]
    decreases k' - k
  {
    if k < k' {
      RunPrefix(keys, s, cands, k, k' - 1);
      RunStep(keys, s, cands, k');
    }
  }

  /** The list holds one entry per day, in date order. */
  lemma {:induction false} EntryPerDay(keys: seq<string>, s: Schedule, cands: seq<string>, k: nat)
    requires k <= |s|
    ensures forall i :: 0 <= i < k ==> Run(keys, s, cands, k).0[i].day == i + 1
  {
    if k > 0 {
      EntryPerDay(keys, s, cands, k - 1);
      RunStep(keys, s, cands, k);
    }
  }

  /** The entry of day `k` in the finished list is the one the pick for day `k` produced. */
  lemma FinalEntry(keys: seq<string>, s: Schedule, cands: seq<string>, k: nat)
    requires 1 <= k <= |s|
    ensures var p := PickOf(keys, s, cands, k);
      Run(keys, s, cands, |s|).0[k - 1] == Entry(k, if p.Some? then Some(cands[p.value]) else None)
  {
    var full, cur, prev := Run(keys, s, cands, |s|).0, Run(keys, s, cands, k).0, Run(keys, s, cands, k - 1).0;
    var p := PickOf(keys, s, cands, k);
    var e := Entry(k, if p.Some? then Some(cands[p.value]) else None);
    RunPrefix(keys, s, cands, k, |s|);
    RunStep(keys, s, cands, k);
    assert cur == prev + [e] && |prev| == k - 1;
    calc {
      full[k - 1];
      full[..k][k - 1];
      cur[k - 1];
      e;
    }
  }

  /** The pick for day `k` qualifies and precedes every qualifying candidate in stable count
      order; there is no pick exactly when nobody qualifies. */
  lemma PickSpec(keys: seq<string>, s: Schedule, cands: seq<string>, k: nat)
    requires 1 <= k <= |s|
    ensures var p, counts := PickOf(keys, s, cands, k), Run(keys, s, cands, k - 1).1;
      (p.Some? ==> (p.value < |cands| && Qualifies(keys, s, cands[p.value], k) &&
        forall q :: 0 <= q < |cands| && Qualifies(keys, s, cands[q], k) ==> Precedes(cands, counts, p.value, q))) &&
      (p.None? <==> forall q :: 0 <= q < |cands| ==> !Qualifies(keys, s, cands[q], k))
  {
    var ok := QualFlags(keys, s, cands, k);
    BestSpec(cands, Run(keys, s, cands, k - 1).1, ok, |cands|);
    assert forall q :: 0 <= q < |cands| ==> (ok[q] <==> Qualifies(keys, s, cands[q], k));
  }

  /**
   * The standby of day `k` is a candidate who qualifies (no own duty within MIN_GAP days)
   * and comes first among the qualifying candidates once they are stably sorted by the
   * counts so far; the entry reads "No eligible staff" exactly when nobody qualifies.
   */
  lemma StandbyChoice(keys: seq<string>, s: Schedule, cands: seq<string>, k: nat)
    requires 1 <= k <= |s|
    ensures var e, counts := Run(keys, s, cands, |s|).0[k - 1], Run(keys, s, cands, k - 1).1;
      e.day == k &&
      (e.standby.Some? ==> exists p :: (0 <= p < |cands| && cands[p] == e.standby.value &&
        Qualifies(keys, s, cands[p], k) &&
        forall q :: 0 <= q < |cands| && Qualifies(keys, s, cands[q], k) ==> Precedes(cands, counts, p, q))) &&
      (e.standby.None? <==> forall q :: 0 <= q < |cands| ==> !Qualifies(keys, s, cands[q], k))
  {
    FinalEntry(keys, s, cands, k);
    PickSpec(keys, s, cands, k);
  }

  /** Membership in the duty dates of a key. */
  lemma {:induction false} DutyDatesSpec(keys: seq<string>, s: Schedule, key: string, k: nat, d: nat)
    requires k <= |s|
    ensures d in DutyDates(keys, s, key, k) <==>
      1 <= d <= k && s[d - 1].Some? && s[d - 1].value < |keys| && keys[s[d - 1].value] == key
  {
    if k > 0 {
      DutyDatesSpec(keys, s, key, k - 1, d);
    }
  }

  /** A qualifying name has no duty of its own, under its key, within MIN_GAP days. */
  lemma QualifiesKeepsGap(keys: seq<string>, s: Schedule, name: string, day: nat, d: nat)
    requires Qualifies(keys, s, name, day)
    requires 1 <= d <= |s| && s[d - 1].Some? && s[d - 1].value < |keys| && keys[s[d - 1].value] == Lower(name)
    ensures Abs(day - d) >= MIN_GAP
  {
    var dates := DutyDates(keys, s, Lower(name), |s|);
    DutyDatesSpec(keys, s, Lower(name), |s|, d);
    var q :| 0 <= q < |dates| && dates[q] == d;
    TooCloseSpec(dates, day);
  }

  /** Nobody stands by within MIN_GAP days of a duty of their own, so in particular never on
      a day they are on duty. */
  lemma StandbyKeepsGap(keys: seq<string>, s: Schedule, cands: seq<string>, k: nat, d: nat)
    requires 1 <= k <= |s|
    requires Run(keys, s, cands, |s|).0[k - 1].standby.Some?
    requires 1 <= d <= |s| && s[d - 1].Some? && s[d - 1].value < |keys|
    requires keys[s[d - 1].value] == Lower(Run(keys, s, cands, |s|).0[k - 1].standby.value)
    ensures Abs(k - d) >= MIN_GAP && d != k
  {
    StandbyChoice(keys, s, cands, k);
    var c := Run(keys, s, cands, |s|).0[k - 1].standby.value;
    var p :| 0 <= p < |cands| && cands[p] == c && Qualifies(keys, s, cands[p], k);
    QualifiesKeepsGap(keys, s, c, k, d);
  }

  /** The number of entries with `c` on standby. */
  function Tally(entries: seq<Entry>, c: string): nat
  {
    if entries == [] then 0
    else Tally(entries[..|entries| - 1], c) + (if entries[|entries| - 1].standby == Some(c) then 1 else 0)
  }

  /** Every candidate's count is the number of days it stands by. */
  lemma {:induction false} CountsTally(keys: seq<string>, s: Schedule, cands: seq<string>, k: nat)
    requires k <= |s|
    ensures forall c :: c in cands ==> Run(keys, s, cands, k).1[c] == Tally(Run(keys, s, cands, k).0, c)
  {
    if k > 0 {
      CountsTally(keys, s, cands, k - 1);
      RunStep(keys, s, cands, k);
      var cur := Run(keys, s, cands, k).0;
      assert cur[..|cur| - 1] == Run(keys, s, cands, k - 1).0;
    }
  }

  /** Every candidate is the stripped name of a row that is not frozen. */
  lemma {:induction false} CandidatesNotFrozen(staff: seq<Person>, k: nat)
    requires k <= |staff|
    ensures forall c :: c in CandidatesBelow(staff, k) ==>
      exists j :: 0 <= j < k && !IsFrozen(staff, j) && c == Strip(staff[j].name)
  {
    if k > 0 {
      CandidatesNotFrozen(staff, k - 1);
    }
  }

  /** Every standby in the finished list is a candidate. */
  lemma StandbyIsCandidate(keys: seq<string>, s: Schedule, cands: seq<string>, k: nat)
    requires 1 <= k <= |s|
    requires Run(keys, s, cands, |s|).0[k - 1].standby.Some?
    ensures Run(keys, s, cands, |s|).0[k - 1].standby.value in cands
  {
    FinalEntry(keys, s, cands, k);
  }

  /** Nobody frozen this month is ever put on standby: every standby's name key is outside
      the frozen keys. */
  lemma StandbyNeverFrozen(staff: seq<Person>, s: Schedule, k: nat)
    requires 1 <= k <= |s|
    requires Run(StaffKeys(staff), s, Candidates(staff), |s|).0[k - 1].standby.Some?
    ensures Lower(Run(StaffKeys(staff), s, Candidates(staff), |s|).0[k - 1].standby.value) !in FrozenKeys(staff)
  {
    var c := Run(StaffKeys(staff), s, Candidates(staff), |s|).0[k - 1].standby.value;
    StandbyIsCandidate(StaffKeys(staff), s, Candidates(staff), k);
    CandidatesNotFrozen(staff, |staff|);
    var j :| 0 <= j < |staff| && !IsFrozen(staff, j) && c == Strip(staff[j].name);
    assert Lower(c) == Key(staff[j].name);
  }
}
