/** The patient side: the older availability query that pairs slots by full timestamps, and the
    cross-clinician pass that drops closely spaced rows. */
module PatientController {
  import opened Results
  import opened Time
  import opened Requests
  import opened ClinicianModel
  import opened PatientModel
  import opened Responses
  import opened ClinicianController
  import opened Sequences
  import opened Sorting

  // ---------------------------------------------------------------------------------------
  // get_available_slots

  /** The clinicians the patient may see; when a category is given, only those whose role shares
      a type with it. */
  function EligibleFor(
    compatible: (Clinician, Patient) -> bool, patient: Patient,
    clinicians: seq<Clinician>, category: Option<AppointmentCategory>): (r: seq<Clinician>)
    ensures IsSubsequence(r, clinicians)
    ensures forall c :: c in r <==>
      c in clinicians && compatible(c, patient) && (category.Some? ==> SharesAppointmentType(c, category.value))
    ensures forall c :: (multiset(r)[c] ==
      if compatible(c, patient) && (category.Some? ==> SharesAppointmentType(c, category.value))
      then multiset(clinicians)[c] else 0)
  {
    if category.None? then Filter(c => compatible(c, patient), clinicians)
    else FilterTwice(c => compatible(c, patient), c => SharesAppointmentType(c, category.value), clinicians)
  }

  /** Total number of open slots of the clinicians. */
  function SlotCount(cs: seq<Clinician>): nat {
    if |cs| == 0 then 0 else |cs[0].availableSlots| + SlotCount(cs[1..])
  }

  /** The row is a single (no follow-up) for one of `c`'s open slots. */
  ghost predicate IsSingleOf(row: AvailabilityResponse, c: Clinician) {
    row.slot in c.availableSlots && row == RowFor(c, row.slot, None)
  }

  /** `from_clinician(c)` for each clinician in turn, concatenated. */
  function SinglesOf(cs: seq<Clinician>): (rows: seq<AvailabilityResponse>)
    ensures |rows| == SlotCount(cs)
    ensures forall row :: row in rows <==> exists c :: c in cs && IsSingleOf(row, c)
    decreases |cs|
  {
    if |cs| == 0 then []
    else
      var first := FromClinician(cs[0], None);
      var rest := SinglesOf(cs[1..]);
      assert forall row :: row in first <==> IsSingleOf(row, cs[0]) by {
        forall row ensures row in first <==> IsSingleOf(row, cs[0]) {
          if row in first {
            var i :| 0 <= i < |first| && first[i] == row;
            assert row.slot == cs[0].availableSlots[i];
          }
          if IsSingleOf(row, cs[0]) {
            var i :| 0 <= i < |cs[0].availableSlots| && cs[0].availableSlots[i] == row.slot;
            assert first[i] in first;
            assert first[i] == RowFor(cs[0], cs[0].availableSlots[i], None);
          }
        }
      }
      assert forall c :: c in cs <==> c == cs[0] || c in cs[1..];
      first + rest
  }

  /** `f` may follow `a`: same clinician id, and `f` starts between one and seven whole days
      (as timestamps, not calendar days) after `a`. */
  predicate TimestampFollowUp(a: AvailabilityResponse, f: AvailabilityResponse) {
    && a.slot.date + MinutesPerDay <= f.slot.date <= a.slot.date + DaysPerWeek * MinutesPerDay
    && f.clinicianId == a.clinicianId
  }

  /** `AvailabilityResponse.with_follow_up`, which is called but whose definition is not part of
      this model: the same row with the follow-up slot set. */
  function WithFollowUp(a: AvailabilityResponse, followUp: AvailableSlot): AvailabilityResponse {
    a.(followUpSlot := Some(followUp))
  }

  /** One row per candidate, each pairing `a` with that candidate's slot. */
  function PairWith(a: AvailabilityResponse, candidates: seq<AvailabilityResponse>): (rows: seq<AvailabilityResponse>)
    ensures |rows| == |candidates|
    ensures forall row :: row in rows <==> exists f :: f in candidates && row == WithFollowUp(a, f.slot)
    decreases |candidates|
  {
    if |candidates| == 0 then []
    else
      var rest := PairWith(a, candidates[1..]);
      assert forall f :: f in candidates <==> f == candidates[0] || f in candidates[1..];
      [WithFollowUp(a, candidates[0].slot)] + rest
  }

  /** The rows `f` may follow. */
  function FollowsOf(a: AvailabilityResponse): AvailabilityResponse -> bool {
    f => TimestampFollowUp(a, f)
  }

  /** The number of (row of `rows`, timestamp follow-up of it in `all`) pairs, counting repeated
      rows as often as they occur. */
  function PairTotal(all: seq<AvailabilityResponse>, rows: seq<AvailabilityResponse>): nat
    decreases |rows|
  {
    if |rows| == 0 then 0 else CountWhere(FollowsOf(rows[0]), all) + PairTotal(all, rows[1..])
  }

  /** For each row of `rows` in turn, one row per timestamp follow-up of it among `all`. */
  function PairAll(all: seq<AvailabilityResponse>, rows: seq<AvailabilityResponse>): (paired: seq<AvailabilityResponse>)
    ensures |paired| == PairTotal(all, rows)
    ensures forall row :: row in paired <==>
      exists a, f :: a in rows && f in all && TimestampFollowUp(a, f) && row == WithFollowUp(a, f.slot)
    decreases |rows|
  {
    if |rows| == 0 then []
    else
      var a := rows[0];
      var first := PairWith(a, Filter(FollowsOf(a), all));
      FilterLength(FollowsOf(a), all);
      var rest := PairAll(all, rows[1..]);
      assert forall x :: x in rows <==> x == a || x in rows[1..];
      first + rest
  }

  /** The rows `get_available_slots` builds before sorting. */
  function Unsorted(
    compatible: (Clinician, Patient) -> bool, patient: Patient,
    clinicians: seq<Clinician>, category: Option<AppointmentCategory>): seq<AvailabilityResponse>
  {
    var singles := SinglesOf(EligibleFor(compatible, patient, clinicians, category));
    if category == Some(Assessment) then PairAll(singles, singles) else singles
  }

  /** `PatientController.get_available_slots` after loading: one single row per open slot of
      each eligible clinician; for ASSESSMENT, instead, one row per (row, timestamp follow-up)
      pair; sorted in either case. */
  function GetAvailableSlots(
    compatible: (Clinician, Patient) -> bool, patient: Patient,
    clinicians: seq<Clinician>, category: Option<AppointmentCategory>): (r: seq<AvailabilityResponse>)
    ensures SortedBy(RowLe, r)
    ensures multiset(r) == multiset(Unsorted(compatible, patient, clinicians, category))
  {
    SortResponses(Unsorted(compatible, patient, clinicians, category))
  }

  /** Without the ASSESSMENT category, the result holds exactly one single row per open slot of
      each eligible clinician. */
  lemma OtherCategoriesGiveSingles(
    compatible: (Clinician, Patient) -> bool, patient: Patient,
    clinicians: seq<Clinician>, category: Option<AppointmentCategory>)
    requires category != Some(Assessment)
    ensures var r := GetAvailableSlots(compatible, patient, clinicians, category);
      var eligible := EligibleFor(compatible, patient, clinicians, category);
      && |r| == SlotCount(eligible)
      && forall row :: row in r <==> exists c :: c in eligible && IsSingleOf(row, c)
  {
    var r := GetAvailableSlots(compatible, patient, clinicians, category);
    assert |r| == |multiset(r)|;
    SameMembers(r, Unsorted(compatible, patient, clinicians, category));
  }

  /** For ASSESSMENT, a row is in the result exactly when it pairs two single rows of eligible
      clinicians with the same id, the second one to seven days (as timestamps) after the first. */
  lemma AssessmentRowsArePairs(
    compatible: (Clinician, Patient) -> bool, patient: Patient, clinicians: seq<Clinician>)
    ensures var r := GetAvailableSlots(compatible, patient, clinicians, Some(Assessment));
      var singles := SinglesOf(EligibleFor(compatible, patient, clinicians, Some(Assessment)));
      forall row :: row in r <==>
        exists a, f :: a in singles && f in singles && TimestampFollowUp(a, f) && row == WithFollowUp(a, f.slot)
  {
    var singles := SinglesOf(EligibleFor(compatible, patient, clinicians, Some(Assessment)));
    var u := Unsorted(compatible, patient, clinicians, Some(Assessment));
    var r := GetAvailableSlots(compatible, patient, clinicians, Some(Assessment));
    assert u == PairAll(singles, singles);
    SameMembers(r, u);
    forall row ensures row in r <==>
      exists a, f :: a in singles && f in singles && TimestampFollowUp(a, f) && row == WithFollowUp(a, f.slot)
    {
      assert row in r <==> row in u;
    }
  }

  /** An assessment row is always for an open slot of an eligible psychologist, and its
      follow-up starts one to seven days later. */
  lemma AssessmentRowIsForEligiblePsychologist(
    compatible: (Clinician, Patient) -> bool, patient: Patient, clinicians: seq<Clinician>, row: AvailabilityResponse)
    requires row in GetAvailableSlots(compatible, patient, clinicians, Some(Assessment))
    ensures row.followUpSlot.Some?
    ensures row.slot.date + MinutesPerDay <= row.followUpSlot.value.date <= row.slot.date + 7 * MinutesPerDay
    ensures exists c :: (c in clinicians && compatible(c, patient) && c.clinicianType == Psychologist
                         && c.id == row.clinicianId && row.slot in c.availableSlots)
  {
    AssessmentRowsArePairs(compatible, patient, clinicians);
    var eligible := EligibleFor(compatible, patient, clinicians, Some(Assessment));
    var singles := SinglesOf(eligible);
    var a, f :| a in singles && f in singles && TimestampFollowUp(a, f) && row == WithFollowUp(a, f.slot);
    var c :| c in eligible && IsSingleOf(a, c);
    SharesTypeIffRoleMatches(c, Assessment);
  }

  // ---------------------------------------------------------------------------------------
  // optimize_appointment_slots

  /** The rows of clinician `id`, in order. */
  function ForClinician(id: string, rows: seq<AvailabilityResponse>): (r: seq<AvailabilityResponse>)
    ensures IsSubsequence(r, rows)
    ensures forall row :: row in r <==> row in rows && row.clinicianId == id
    decreases |rows|
  {
    if |rows| == 0 then []
    else
      var rest := ForClinician(id, rows[1..]);
      assert rows == [rows[0]] + rows[1..];
      if rows[0].clinicianId == id then [rows[0]] + rest else rest
  }

  /** The loop of `optimize_appointment_slots` from reference times `last`: a clinician's first
      row only sets its reference; a later row is kept, and becomes the reference, when it starts
      at least `duration` minutes after the reference. */
  function DedupFrom(rows: seq<AvailabilityResponse>, duration: int, last: map<string, Minute>): (r: seq<AvailabilityResponse>)
    ensures IsSubsequence(r, rows)
    decreases |rows|
  {
    if |rows| == 0 then []
    else
      var a := rows[0];
      if a.clinicianId !in last then
        DedupFrom(rows[1..], duration, last[a.clinicianId := a.slot.date])
      else if a.slot.date >= last[a.clinicianId] + duration then
        [a] + DedupFrom(rows[1..], duration, last[a.clinicianId := a.slot.date])
      else
        DedupFrom(rows[1..], duration, last)
  }

  /** `optimize_appointment_slots`. */
  function OptimizeAppointmentSlots(rows: seq<AvailabilityResponse>, duration: int): (r: seq<AvailabilityResponse>)
    ensures |rows| == 0 ==> r == []
    ensures IsSubsequence(r, rows)
  {
    if |rows| == 0 then [] else DedupFrom(rows, duration, map[])
  }

  /** Two reference maps that agree about clinician `id`. */
  ghost predicate AgreeOn(id: string, last1: map<string, Minute>, last2: map<string, Minute>) {
    (id in last1 <==> id in last2) && (id in last1 ==> last1[id] == last2[id])
  }

  /** A clinician's kept rows depend only on that clinician's rows and reference: other
      clinicians' rows never affect them. */
  lemma {:induction false} DedupIsPerClinician(
    id: string, rows: seq<AvailabilityResponse>, duration: int, last1: map<string, Minute>, last2: map<string, Minute>)
    requires AgreeOn(id, last1, last2)
    ensures ForClinician(id, DedupFrom(rows, duration, last1)) == DedupFrom(ForClinician(id, rows), duration, last2)
    decreases |rows|
  {
    if |rows| > 0 {
      var a := rows[0];
      assert rows == [a] + rows[1..];
      if a.clinicianId != id {
        assert ForClinician(id, rows) == ForClinician(id, rows[1..]);
        if a.clinicianId !in last1 {
          DedupIsPerClinician(id, rows[1..], duration, last1[a.clinicianId := a.slot.date], last2);
        } else if a.slot.date >= last1[a.clinicianId] + duration {
          DedupIsPerClinician(id, rows[1..], duration, last1[a.clinicianId := a.slot.date], last2);
          assert ([a] + DedupFrom(rows[1..], duration, last1[a.clinicianId := a.slot.date]))[1..]
              == DedupFrom(rows[1..], duration, last1[a.clinicianId := a.slot.date]);
        } else {
          DedupIsPerClinician(id, rows[1..], duration, last1, last2);
        }
      } else {
        assert ForClinician(id, rows) == [a] + ForClinician(id, rows[1..]);
        assert ([a] + ForClinician(id, rows[1..]))[1..] == ForClinician(id, rows[1..]);
        if a.clinicianId !in last1 {
          DedupIsPerClinician(id, rows[1..], duration, last1[id := a.slot.date], last2[id := a.slot.date]);
        } else if a.slot.date >= last1[a.clinicianId] + duration {
          var tail := DedupFrom(rows[1..], duration, last1[id := a.slot.date]);
          DedupIsPerClinician(id, rows[1..], duration, last1[id := a.slot.date], last2[id := a.slot.date]);
          assert ([a] + tail)[0] == a && ([a] + tail)[1..] == tail;
        } else {
          DedupIsPerClinician(id, rows[1..], duration, last1, last2);
        }
      }
    }
  }

  /** Each row of `kept` starts at least `duration` minutes after the row before it, and the
      first one at least `duration` minutes after `reference`. */
  ghost predicate ChainFrom(reference: int, kept: seq<AvailabilityResponse>, duration: int) {
    && (|kept| > 0 ==> kept[0].slot.date >= reference + duration)
    && (forall i :: 0 < i < |kept| ==> kept[i].slot.date >= kept[i - 1].slot.date + duration)
  }

  /** For one clinician's rows, every kept row is at least `duration` after the reference current
      when it was seen, and then becomes the reference. */
  lemma {:induction false} DedupChains(id: string, rows: seq<AvailabilityResponse>, duration: int, last: map<string, Minute>)
    requires forall row :: row in rows ==> row.clinicianId == id
    requires id in last
    ensures ChainFrom(last[id], DedupFrom(rows, duration, last), duration)
    decreases |rows|
  {
    if |rows| > 0 {
      var a := rows[0];
      assert a in rows;
      forall row | row in rows[1..] ensures row.clinicianId == id {
        assert row in rows;
      }
      if a.slot.date >= last[id] + duration {
        var tail := DedupFrom(rows[1..], duration, last[id := a.slot.date]);
        DedupChains(id, rows[1..], duration, last[id := a.slot.date]);
        assert ([a] + tail)[1..] == tail;
      } else {
        DedupChains(id, rows[1..], duration, last);
      }
    }
  }

  /** The first row of each clinician is never kept; it only becomes the reference. The kept
      rows of that clinician are a subsequence of its remaining rows and form a `duration`-spaced
      chain starting from that first row. */
  lemma OptimizeDropsFirstPerClinician(id: string, rows: seq<AvailabilityResponse>, duration: int)
    ensures var mine := ForClinician(id, rows);
      var kept := ForClinician(id, OptimizeAppointmentSlots(rows, duration));
      && (|mine| == 0 ==> kept == [])
      && (|mine| > 0 ==> IsSubsequence(kept, mine[1..]) && ChainFrom(mine[0].slot.date, kept, duration))
  {
    var mine := ForClinician(id, rows);
    if |rows| > 0 {
      DedupIsPerClinician(id, rows, duration, map[], map[]);
      if |mine| > 0 {
        var reference := map[id := mine[0].slot.date];
        assert DedupFrom(mine, duration, map[]) == DedupFrom(mine[1..], duration, reference);
        forall row | row in mine[1..] ensures row.clinicianId == id {
          assert row in mine;
        }
        DedupChains(id, mine[1..], duration, reference);
      }
    }
  }

  // The evidently intended behaviour: the first row of each clinician is kept.

  function DedupKeepingFirstFrom(rows: seq<AvailabilityResponse>, duration: int, last: map<string, Minute>): (r: seq<AvailabilityResponse>)
    ensures IsSubsequence(r, rows)
    decreases |rows|
  {
    if |rows| == 0 then []
    else
      var a := rows[0];
      if a.clinicianId !in last || a.slot.date >= last[a.clinicianId] + duration then
        [a] + DedupKeepingFirstFrom(rows[1..], duration, last[a.clinicianId := a.slot.date])
      else
        DedupKeepingFirstFrom(rows[1..], duration, last)
  }

  /** `optimize_appointment_slots` with the first row of each clinician kept. */
  function OptimizeKeepingFirst(rows: seq<AvailabilityResponse>, duration: int): (r: seq<AvailabilityResponse>)
    ensures |rows| == 0 ==> r == []
    ensures IsSubsequence(r, rows)
    ensures |rows| > 0 ==> |r| > 0 && r[0] == rows[0]
  {
    if |rows| == 0 then [] else DedupKeepingFirstFrom(rows, duration, map[])
  }

  lemma {:induction false} KeepingFirstIsPerClinician(
    id: string, rows: seq<AvailabilityResponse>, duration: int, last1: map<string, Minute>, last2: map<string, Minute>)
    requires AgreeOn(id, last1, last2)
    ensures ForClinician(id, DedupKeepingFirstFrom(rows, duration, last1)) == DedupKeepingFirstFrom(ForClinician(id, rows), duration, last2)
    decreases |rows|
  {
    if |rows| > 0 {
      var a := rows[0];
      assert rows == [a] + rows[1..];
      var keep := a.clinicianId !in last1 || a.slot.date >= last1[a.clinicianId] + duration;
      var next1 := if keep then last1[a.clinicianId := a.slot.date] else last1;
      var tail := DedupKeepingFirstFrom(rows[1..], duration, next1);
      if a.clinicianId != id {
        assert ForClinician(id, rows) == ForClinician(id, rows[1..]);
        KeepingFirstIsPerClinician(id, rows[1..], duration, next1, last2);
        if keep {
          assert ([a] + tail)[1..] == tail;
        }
      } else {
        assert ForClinician(id, rows) == [a] + ForClinician(id, rows[1..]);
        assert ([a] + ForClinician(id, rows[1..]))[1..] == ForClinician(id, rows[1..]);
        var next2 := if keep then last2[id := a.slot.date] else last2;
        KeepingFirstIsPerClinician(id, rows[1..], duration, next1, next2);
        if keep {
          assert ([a] + tail)[0] == a && ([a] + tail)[1..] == tail;
        }
      }
    }
  }

  /** With the correction, each clinician's first row is kept and every later kept row of that
      clinician starts at least `duration` minutes after the previous kept one. */
  lemma KeepingFirstKeepsFirstPerClinician(id: string, rows: seq<AvailabilityResponse>, duration: int)
    ensures var mine := ForClinician(id, rows);
      var kept := ForClinician(id, OptimizeKeepingFirst(rows, duration));
      && (|mine| == 0 ==> kept == [])
      && (|mine| > 0 ==> |kept| > 0 && kept[0] == mine[0] && IsSubsequence(kept, mine)
                         && ChainFrom(mine[0].slot.date, kept[1..], duration))
  {
    var mine := ForClinician(id, rows);
    if |rows| > 0 {
      KeepingFirstIsPerClinician(id, rows, duration, map[], map[]);
      if |mine| > 0 {
        var reference := map[id := mine[0].slot.date];
        var tail := DedupKeepingFirstFrom(mine[1..], duration, reference);
        assert DedupKeepingFirstFrom(mine, duration, map[]) == [mine[0]] + tail;
        assert ([mine[0]] + tail)[1..] == tail;
        forall row | row in mine[1..] ensures row.clinicianId == id {
          assert row in mine;
        }
        KeepingFirstChains(id, mine[1..], duration, reference);
      }
    }
  }

  lemma {:induction false} KeepingFirstChains(id: string, rows: seq<AvailabilityResponse>, duration: int, last: map<string, Minute>)
    requires forall row :: row in rows ==> row.clinicianId == id
    requires id in last
    ensures ChainFrom(last[id], DedupKeepingFirstFrom(rows, duration, last), duration)
    decreases |rows|
  {
    if |rows| > 0 {
      var a := rows[0];
      assert a in rows;
      forall row | row in rows[1..] ensures row.clinicianId == id {
        assert row in rows;
      }
      if a.slot.date >= last[id] + duration {
        var tail := DedupKeepingFirstFrom(rows[1..], duration, last[id := a.slot.date]);
        KeepingFirstChains(id, rows[1..], duration, last[id := a.slot.date]);
        assert ([a] + tail)[1..] == tail;
      } else {
        KeepingFirstChains(id, rows[1..], duration, last);
      }
    }
  }

  // ---------------------------------------------------------------------------------------
  // The pass, one step at a time, and per clinician.

  /** One step of the loop: a clinician's first row only becomes its reference; a row of a
      clinician with a reference is kept, and becomes the reference, exactly when it starts at
      least `duration` minutes after that reference, and is otherwise skipped. */
  lemma DedupStep(rows: seq<AvailabilityResponse>, duration: int, last: map<string, Minute>)
    requires |rows| > 0
    ensures var a, id := rows[0], rows[0].clinicianId;
      && (id !in last ==> DedupFrom(rows, duration, last) == DedupFrom(rows[1..], duration, last[id := a.slot.date]))
      && (id in last && a.slot.date >= last[id] + duration ==>
            DedupFrom(rows, duration, last) == [a] + DedupFrom(rows[1..], duration, last[id := a.slot.date]))
      && (id in last && a.slot.date < last[id] + duration ==>
            DedupFrom(rows, duration, last) == DedupFrom(rows[1..], duration, last))
  {
  }

  /** The corrected step: a row is kept exactly when its clinician has no reference yet or it
      starts at least `duration` minutes after the reference. */
  lemma KeepingFirstStep(rows: seq<AvailabilityResponse>, duration: int, last: map<string, Minute>)
    requires |rows| > 0
    ensures var a, id := rows[0], rows[0].clinicianId;
      && (id !in last || a.slot.date >= last[id] + duration ==>
            DedupKeepingFirstFrom(rows, duration, last) == [a] + DedupKeepingFirstFrom(rows[1..], duration, last[id := a.slot.date]))
      && (id in last && a.slot.date < last[id] + duration ==>
            DedupKeepingFirstFrom(rows, duration, last) == DedupKeepingFirstFrom(rows[1..], duration, last))
  {
  }

  /** Two rows of one clinician: as written, the second is kept iff it starts at least
      `duration` minutes after the first and the first is never kept; the correction keeps the
      first and, under the same condition, the second. */
  lemma TwoRowsOfOneClinician(a: AvailabilityResponse, b: AvailabilityResponse, duration: int)
    requires a.clinicianId == b.clinicianId
    ensures OptimizeAppointmentSlots([a, b], duration) == if b.slot.date >= a.slot.date + duration then [b] else []
    ensures OptimizeKeepingFirst([a, b], duration) == if b.slot.date >= a.slot.date + duration then [a, b] else [a]
  {
    var id := a.clinicianId;
    var reference := map[id := a.slot.date];
    assert [a, b][1..] == [b];
    assert [b][1..] == [];
    assert DedupFrom([a, b], duration, map[]) == DedupFrom([b], duration, reference);
    assert DedupKeepingFirstFrom([a, b], duration, map[]) == [a] + DedupKeepingFirstFrom([b], duration, reference);
    if b.slot.date >= a.slot.date + duration {
      assert DedupFrom([b], duration, reference) == [b] + DedupFrom([], duration, reference[id := b.slot.date]);
      assert DedupKeepingFirstFrom([b], duration, reference) == [b] + DedupKeepingFirstFrom([], duration, reference[id := b.slot.date]);
    } else {
      assert DedupFrom([b], duration, reference) == DedupFrom([], duration, reference);
      assert DedupKeepingFirstFrom([b], duration, reference) == DedupKeepingFirstFrom([], duration, reference);
    }
  }

  /** Greedy selection over one clinician's rows from a reference start: keep a row when it
      starts at least `duration` minutes after the reference, and make it the new reference. */
  function GreedyFrom(reference: int, rows: seq<AvailabilityResponse>, duration: int): (kept: seq<AvailabilityResponse>)
    ensures IsSubsequence(kept, rows)
    ensures ChainFrom(reference, kept, duration)
    decreases |rows|
  {
    if |rows| == 0 then []
    else
      var a := rows[0];
      assert rows == [a] + rows[1..];
      if a.slot.date >= reference + duration then
        var rest := GreedyFrom(a.slot.date, rows[1..], duration);
        assert forall i :: 0 < i < |rest| + 1 ==> ([a] + rest)[i] == rest[i - 1];
        [a] + rest
      else GreedyFrom(reference, rows[1..], duration)
  }

  /** The rows start in non-decreasing order. */
  ghost predicate DateSorted(rows: seq<AvailabilityResponse>) {
    forall i, j :: 0 <= i < j < |rows| ==> rows[i].slot.date <= rows[j].slot.date
  }

  lemma {:induction false} SubsequenceOfSortedIsSorted(sub: seq<AvailabilityResponse>, rows: seq<AvailabilityResponse>)
    requires IsSubsequence(sub, rows) && DateSorted(rows)
    ensures DateSorted(sub)
    decreases |rows|
  {
    if |sub| > 0 {
      var tail := rows[1..];
      assert DateSorted(tail) by {
        forall i, j | 0 <= i < j < |tail| ensures tail[i].slot.date <= tail[j].slot.date {
          assert tail[i] == rows[i + 1] && tail[j] == rows[j + 1];
        }
      }
      if sub[0] == rows[0] && IsSubsequence(sub[1..], tail) {
        SubsequenceOfSortedIsSorted(sub[1..], tail);
        SubsequenceMembers(sub[1..], tail);
        forall i, j | 0 <= i < j < |sub| ensures sub[i].slot.date <= sub[j].slot.date {
          assert sub[j] in sub[1..];
          var k :| 0 <= k < |tail| && tail[k] == sub[j];
          assert rows[k + 1] == sub[j];
          if i > 0 {
            assert sub[i] == sub[1..][i - 1] && sub[j] == sub[1..][j - 1];
          }
        }
      } else {
        SubsequenceOfSortedIsSorted(sub, tail);
      }
    }
  }

  /** Consecutive rows start at least `duration` minutes apart: a selection the pass may return
      for one clinician. */
  ghost predicate SpacedRows(rows: seq<AvailabilityResponse>, duration: int) {
    forall i :: 0 < i < |rows| ==> rows[i].slot.date >= rows[i - 1].slot.date + duration
  }

  /** On sorted rows, no selection that chains from `reference` is longer than the greedy one. */
  lemma {:induction false} GreedyIsLongest(
    reference: int, rows: seq<AvailabilityResponse>, s: seq<AvailabilityResponse>, duration: int)
    requires DateSorted(rows)
    requires IsSubsequence(s, rows) && ChainFrom(reference, s, duration)
    ensures |s| <= |GreedyFrom(reference, rows, duration)|
    decreases |rows|
  {
    if |s| > 0 {
      var a, rest := rows[0], rows[1..];
      assert DateSorted(rest) by {
        forall i, j | 0 <= i < j < |rest| ensures rest[i].slot.date <= rest[j].slot.date {
          assert rest[i] == rows[i + 1] && rest[j] == rows[j + 1];
        }
      }
      if a.slot.date < reference + duration {
        assert s[0] != a;
        GreedyIsLongest(reference, rest, s, duration);
      } else {
        var r := a.slot.date;
        if s[0] == a && IsSubsequence(s[1..], rest) {
          assert ChainFrom(r, s[1..], duration) by {
            forall i | 0 < i < |s[1..]| ensures s[1..][i].slot.date >= s[1..][i - 1].slot.date + duration {
              assert s[1..][i] == s[i + 1] && s[1..][i - 1] == s[i];
            }
          }
          GreedyIsLongest(r, rest, s[1..], duration);
        } else {
          assert IsSubsequence(s, rest);
          SubsequenceMembers(s, rest);
          assert s[0] in s;
          var k :| 0 <= k < |rest| && rest[k] == s[0];
          assert rows[k + 1] == s[0];
          TailOfSubsequence(s, rest);
          assert ChainFrom(r, s[1..], duration) by {
            forall i | 0 < i < |s[1..]| ensures s[1..][i].slot.date >= s[1..][i - 1].slot.date + duration {
              assert s[1..][i] == s[i + 1] && s[1..][i - 1] == s[i];
            }
          }
          GreedyIsLongest(r, rest, s[1..], duration);
        }
      }
    }
  }

  /** For one clinician's rows and a reference for it, the loop is the greedy selection. */
  lemma {:induction false} DedupIsGreedy(id: string, rows: seq<AvailabilityResponse>, duration: int, last: map<string, Minute>)
    requires forall row :: row in rows ==> row.clinicianId == id
    requires id in last
    ensures DedupFrom(rows, duration, last) == GreedyFrom(last[id], rows, duration)
    ensures DedupKeepingFirstFrom(rows, duration, last) == GreedyFrom(last[id], rows, duration)
    decreases |rows|
  {
    if |rows| > 0 {
      var a := rows[0];
      assert a in rows;
      forall row | row in rows[1..] ensures row.clinicianId == id {
        assert row in rows;
      }
      if a.slot.date >= last[id] + duration {
        DedupIsGreedy(id, rows[1..], duration, last[id := a.slot.date]);
      } else {
        DedupIsGreedy(id, rows[1..], duration, last);
      }
    }
  }

  /** Per clinician, the pass as written is the greedy selection from that clinician's first row
      over its later rows, and the correction is that first row followed by the same selection. */
  lemma PassesAreGreedyPerClinician(id: string, rows: seq<AvailabilityResponse>, duration: int)
    ensures var mine := ForClinician(id, rows);
      && (|mine| == 0 ==> ForClinician(id, OptimizeAppointmentSlots(rows, duration)) == []
                          && ForClinician(id, OptimizeKeepingFirst(rows, duration)) == [])
      && (|mine| > 0 ==>
            && ForClinician(id, OptimizeAppointmentSlots(rows, duration)) == GreedyFrom(mine[0].slot.date, mine[1..], duration)
            && ForClinician(id, OptimizeKeepingFirst(rows, duration)) == [mine[0]] + GreedyFrom(mine[0].slot.date, mine[1..], duration))
  {
    var mine := ForClinician(id, rows);
    if |rows| > 0 {
      DedupIsPerClinician(id, rows, duration, map[], map[]);
      KeepingFirstIsPerClinician(id, rows, duration, map[], map[]);
      if |mine| > 0 {
        var reference := map[id := mine[0].slot.date];
        assert DedupFrom(mine, duration, map[]) == DedupFrom(mine[1..], duration, reference);
        assert DedupKeepingFirstFrom(mine, duration, map[]) == [mine[0]] + DedupKeepingFirstFrom(mine[1..], duration, reference);
        forall row | row in mine[1..] ensures row.clinicianId == id {
          assert row in mine;
        }
        DedupIsGreedy(id, mine[1..], duration, reference);
      }
    }
  }

  /** The corrected pass keeps exactly one row more per clinician than the pass as written. */
  lemma CorrectionKeepsOneMorePerClinician(id: string, rows: seq<AvailabilityResponse>, duration: int)
    ensures var mine := ForClinician(id, rows);
      && (|mine| == 0 ==> ForClinician(id, OptimizeKeepingFirst(rows, duration)) == [])
      && (|mine| > 0 ==> ForClinician(id, OptimizeKeepingFirst(rows, duration))
                         == [mine[0]] + ForClinician(id, OptimizeAppointmentSlots(rows, duration)))
  {
    PassesAreGreedyPerClinician(id, rows, duration);
  }

  /** On sorted input, the corrected pass keeps, for each clinician, at least as many rows as any
      selection of that clinician's rows spaced `duration` minutes apart: the number of remaining
      slots is maximal. */
  lemma CorrectedPassKeepsMost(id: string, rows: seq<AvailabilityResponse>, duration: int, t: seq<AvailabilityResponse>)
    requires DateSorted(rows)
    requires IsSubsequence(t, ForClinician(id, rows)) && SpacedRows(t, duration)
    ensures |t| <= |ForClinician(id, OptimizeKeepingFirst(rows, duration))|
  {
    var mine := ForClinician(id, rows);
    if |t| > 0 {
      PassesAreGreedyPerClinician(id, rows, duration);
      SubsequenceOfSortedIsSorted(mine, rows);
      SpacedSelectionChainsFromFirst(mine, t, duration);
      GreedyIsLongest(mine[0].slot.date, mine[1..], t[1..], duration);
    }
  }

  /** A spaced selection from sorted rows, less its first row, is a selection from the later
      rows that chains from the first row's start. */
  lemma SpacedSelectionChainsFromFirst(rows: seq<AvailabilityResponse>, t: seq<AvailabilityResponse>, duration: int)
    requires DateSorted(rows) && IsSubsequence(t, rows) && SpacedRows(t, duration) && |t| > 0
    ensures |rows| > 0 && DateSorted(rows[1..])
    ensures IsSubsequence(t[1..], rows[1..]) && ChainFrom(rows[0].slot.date, t[1..], duration)
  {
    var first, rest := rows[0], rows[1..];
    assert DateSorted(rest) by {
      forall i, j | 0 <= i < j < |rest| ensures rest[i].slot.date <= rest[j].slot.date {
        assert rest[i] == rows[i + 1] && rest[j] == rows[j + 1];
      }
    }
    var tail := t[1..];
    if t[0] != first || !IsSubsequence(tail, rest) {
      assert IsSubsequence(t, rest);
      SubsequenceMembers(t, rest);
      assert t[0] in t;
      var k :| 0 <= k < |rest| && rest[k] == t[0];
      assert rows[k + 1] == t[0];
      TailOfSubsequence(t, rest);
    }
    forall i | 0 <= i < |tail|
      ensures i == 0 ==> tail[i].slot.date >= first.slot.date + duration
      ensures i > 0 ==> tail[i].slot.date >= tail[i - 1].slot.date + duration
    {
      assert tail[i] == t[i + 1];
      if i > 0 { assert tail[i - 1] == t[i]; }
    }
  }

  /** A single row is dropped as written and kept by the correction. */
  lemma LoneRowIsDropped(row: AvailabilityResponse, duration: int)
    ensures OptimizeAppointmentSlots([row], duration) == []
    ensures OptimizeKeepingFirst([row], duration) == [row]
  {
  }
}
