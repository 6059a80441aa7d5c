/** `App.get_available_slots`: the compatible clinicians, their slots thinned, follow-ups
    attached for assessments, one dict entry per clinician id, flattened and sorted. */
module App {
  import opened Results
  import opened Time
  import opened Requests
  import opened ClinicianModel
  import opened PatientModel
  import opened Responses
  import opened ClinicianController
  import opened Sequences
  import opened Sorting
  import opened OrderedDicts

  /** Minutes per appointment: 90 for an assessment, 60 otherwise. */
  function Duration(category: AppointmentCategory): int {
    if category == Assessment then 90 else 60
  }

  /** The clinician with its open slots replaced by the thinned ones. */
  function WithThinnedSlots(c: Clinician, duration: int): Clinician {
    c.(availableSlots := Thin(c, duration))
  }

  /** `clinician_follow_up_appointments` after its loop: a later clinician with the same id
      overwrites an earlier one's entry. */
  function FollowUpDict(cs: seq<Clinician>): (m: map<string, map<string, seq<AvailableSlot>>>)
    ensures m.Keys == set c | c in cs :: c.id
    ensures forall k :: k in m ==> exists c :: c in cs && c.id == k && m[k] == FollowUpAppointments(c.availableSlots)
    decreases |cs|
  {
    if |cs| == 0 then map[]
    else
      var m := FollowUpDict(cs[..|cs| - 1]);
      FollowUpDictStep(cs, m);
      m[cs[|cs| - 1].id := FollowUpAppointments(cs[|cs| - 1].availableSlots)]
  }

  lemma FollowUpDictStep(cs: seq<Clinician>, m: map<string, map<string, seq<AvailableSlot>>>)
    requires |cs| > 0
    requires m.Keys == set c | c in cs[..|cs| - 1] :: c.id
    requires forall k :: k in m ==> exists c :: c in cs[..|cs| - 1] && c.id == k && m[k] == FollowUpAppointments(c.availableSlots)
    ensures var r := m[cs[|cs| - 1].id := FollowUpAppointments(cs[|cs| - 1].availableSlots)];
      && r.Keys == (set c | c in cs :: c.id)
      && forall k :: k in r ==> exists c :: c in cs && c.id == k && r[k] == FollowUpAppointments(c.availableSlots)
  {
    var prefix := cs[..|cs| - 1];
    var last := cs[|cs| - 1];
    assert cs == prefix + [last];
    var r := m[last.id := FollowUpAppointments(last.availableSlots)];
    assert r.Keys == set c | c in cs :: c.id;
    forall k | k in r
      ensures exists c :: c in cs && c.id == k && r[k] == FollowUpAppointments(c.availableSlots)
    {
      if k != last.id {
        var c :| c in prefix && c.id == k && m[k] == FollowUpAppointments(c.availableSlots);
        assert c in cs;
      } else {
        assert last in cs;
      }
    }
  }

  /** `dict.get`. */
  function Get<V>(m: map<string, V>, k: string): (r: Option<V>)
    ensures r.Some? <==> k in m
    ensures r.Some? ==> r.value == m[k]
  {
    if k in m then Some(m[k]) else None
  }

  /** The rows the dict comprehension stores for clinician `c`. */
  function RowsOf(c: Clinician, followUps: map<string, map<string, seq<AvailableSlot>>>): seq<AvailabilityResponse> {
    FromClinician(c, Get(followUps, c.id))
  }

  /** The ids of the clinicians, in order. */
  function Ids(cs: seq<Clinician>): (ids: seq<string>)
    ensures |ids| == |cs| && forall i :: 0 <= i < |cs| ==> ids[i] == cs[i].id
  {
    seq(|cs|, i requires 0 <= i < |cs| => cs[i].id)
  }

  /** The rows each clinician contributes, in order. */
  function RowsOfEach(cs: seq<Clinician>, followUps: map<string, map<string, seq<AvailableSlot>>>): (rows: seq<seq<AvailabilityResponse>>)
    ensures |rows| == |cs|
  {
    seq(|cs|, i requires 0 <= i < |cs| => RowsOf(cs[i], followUps))
  }

  /** `clinician_availability`: keyed by clinician id in first-seen order; each key holds the
      rows of the last clinician with that id. */
  function AvailabilityDict(cs: seq<Clinician>, followUps: map<string, map<string, seq<AvailableSlot>>>): (d: Dict<seq<AvailabilityResponse>>)
    ensures Valid(d)
    ensures forall k :: k in d.entries <==> k in Ids(cs)
    ensures LastWriteWins(Ids(cs), RowsOfEach(cs, followUps), d)
  {
    FromPairs(Ids(cs), RowsOfEach(cs, followUps))
  }

  /** `App.get_available_slots` after loading the patient and the clinicians. */
  function GetAvailableSlots(
    compatible: (Clinician, Patient) -> bool, patient: Patient,
    clinicians: seq<Clinician>, category: AppointmentCategory): (r: seq<AvailabilityResponse>)
    ensures SortedBy(RowLe, r)
    ensures multiset(r) == multiset(Flatten(Values(Availability(compatible, patient, clinicians, category))))
    ensures forall row :: row in r <==> row in Flatten(Values(Availability(compatible, patient, clinicians, category)))
  {
    var rows := Flatten(Values(Availability(compatible, patient, clinicians, category)));
    var r := SortResponses(rows);
    SameMembers(r, rows);
    r
  }

  /** Each clinician with its slots thinned, in order. */
  function ThinAll(cs: seq<Clinician>, duration: int): (ts: seq<Clinician>)
    ensures |ts| == |cs|
    ensures forall i :: 0 <= i < |cs| ==> ts[i] == WithThinnedSlots(cs[i], duration)
    ensures forall t :: t in ts <==> exists c :: c in cs && t == WithThinnedSlots(c, duration)
    decreases |cs|
  {
    if |cs| == 0 then []
    else
      var rest := ThinAll(cs[1..], duration);
      assert forall c :: c in cs <==> c == cs[0] || c in cs[1..];
      assert forall i :: 1 <= i < |cs| ==> cs[i] == cs[1..][i - 1];
      [WithThinnedSlots(cs[0], duration)] + rest
  }

  /** The eligible clinicians with their slots thinned for the category's duration. */
  function Thinned(
    compatible: (Clinician, Patient) -> bool, patient: Patient,
    clinicians: seq<Clinician>, category: AppointmentCategory): (ts: seq<Clinician>)
    ensures var eligible := CompatibleClinicians(compatible, patient, clinicians, category);
      && |ts| == |eligible|
      && forall i :: 0 <= i < |eligible| ==> ts[i] == WithThinnedSlots(eligible[i], Duration(category))
    ensures forall t :: t in ts <==>
      exists c :: (c in clinicians && compatible(c, patient) && SharesAppointmentType(c, category)
                   && t == WithThinnedSlots(c, Duration(category)))
  {
    ThinAll(CompatibleClinicians(compatible, patient, clinicians, category), Duration(category))
  }

  /** The follow-up dict the pipeline builds: filled only for assessments. */
  function FollowUpDictFor(ts: seq<Clinician>, category: AppointmentCategory): map<string, map<string, seq<AvailableSlot>>> {
    if category == Assessment then FollowUpDict(ts) else map[]
  }

  /** The dict `clinician_availability`. */
  function Availability(
    compatible: (Clinician, Patient) -> bool, patient: Patient,
    clinicians: seq<Clinician>, category: AppointmentCategory): (d: Dict<seq<AvailabilityResponse>>)
    ensures Valid(d)
  {
    var ts := Thinned(compatible, patient, clinicians, category);
    AvailabilityDict(ts, FollowUpDictFor(ts, category))
  }
  // ---------------------------------------------------------------------------------------
  // What the pipeline returns, when clinician ids are unique.

  /** No two different clinicians share an id. */
  ghost predicate UniqueIds(cs: seq<Clinician>) {
    forall a, b :: a in cs && b in cs && a.id == b.id ==> a == b
  }

  /** With unique ids, each clinician's follow-up entry is its own follow-up map. */
  lemma FollowUpDictHoldsEveryClinician(cs: seq<Clinician>, c: Clinician)
    requires UniqueIds(cs) && c in cs
    ensures c.id in FollowUpDict(cs) && FollowUpDict(cs)[c.id] == FollowUpAppointments(c.availableSlots)
  {
  }

  lemma ThinnedIdsAreUnique(
    compatible: (Clinician, Patient) -> bool, patient: Patient,
    clinicians: seq<Clinician>, category: AppointmentCategory)
    requires UniqueIds(clinicians)
    ensures UniqueIds(Thinned(compatible, patient, clinicians, category))
  {
    var ts := Thinned(compatible, patient, clinicians, category);
    forall a, b | a in ts && b in ts && a.id == b.id ensures a == b {
      var ca :| ca in clinicians && compatible(ca, patient) && SharesAppointmentType(ca, category)
        && a == WithThinnedSlots(ca, Duration(category));
      var cb :| cb in clinicians && compatible(cb, patient) && SharesAppointmentType(cb, category)
        && b == WithThinnedSlots(cb, Duration(category));
    }
  }

  /** With unique ids, the flattened dict holds exactly the rows some clinician contributes. */
  lemma FlattenedDictIsAllRows(cs: seq<Clinician>, followUps: map<string, map<string, seq<AvailableSlot>>>, row: AvailabilityResponse)
    requires UniqueIds(cs)
    ensures row in Flatten(Values(AvailabilityDict(cs, followUps))) <==> exists t :: t in cs && row in RowsOf(t, followUps)
  {
    var ids := Ids(cs);
    var vals := RowsOfEach(cs, followUps);
    forall i, j | 0 <= i < |ids| && 0 <= j < |ids| && ids[i] == ids[j] ensures vals[i] == vals[j] {
      assert cs[i] in cs && cs[j] in cs;
    }
    FlattenedConsistentPairs(ids, vals, row);
    if i :| 0 <= i < |vals| && row in vals[i] {
      assert cs[i] in cs;
    }
    if t :| t in cs && row in RowsOf(t, followUps) {
      var i :| 0 <= i < |cs| && cs[i] == t;
      assert row in vals[i];
    }
  }

  /** With unique ids, a row is returned exactly when it is one of the rows some thinned
      eligible clinician contributes. */
  lemma ResultIsRowsOfThinnedClinicians(
    compatible: (Clinician, Patient) -> bool, patient: Patient,
    clinicians: seq<Clinician>, category: AppointmentCategory, row: AvailabilityResponse)
    requires UniqueIds(clinicians)
    ensures var ts := Thinned(compatible, patient, clinicians, category);
      row in GetAvailableSlots(compatible, patient, clinicians, category) <==>
        exists t :: t in ts && row in RowsOf(t, FollowUpDictFor(ts, category))
  {
    var ts := Thinned(compatible, patient, clinicians, category);
    ThinnedIdsAreUnique(compatible, patient, clinicians, category);
    FlattenedDictIsAllRows(ts, FollowUpDictFor(ts, category), row);
  }

  /** The row is a single for one of the slots thinning keeps for clinician `c`. */
  ghost predicate IsThinnedSingle(c: Clinician, duration: int, row: AvailabilityResponse) {
    row.slot in Thin(c, duration) && row == RowFor(c, row.slot, None)
  }

  /** Rows for a therapy request are exactly one single row per kept slot of each eligible
      clinician, kept by thinning for 60-minute appointments. */
  lemma TherapyRowsAreThinnedSingles(
    compatible: (Clinician, Patient) -> bool, patient: Patient,
    clinicians: seq<Clinician>, row: AvailabilityResponse)
    requires UniqueIds(clinicians)
    ensures row in GetAvailableSlots(compatible, patient, clinicians, Therapy) <==>
      exists c :: c in clinicians && compatible(c, patient) && SharesAppointmentType(c, Therapy) && IsThinnedSingle(c, 60, row)
  {
    ResultIsRowsOfThinnedClinicians(compatible, patient, clinicians, Therapy, row);
    ThinnedSinglesOf(compatible, patient, clinicians, row);
  }

  /** Without follow-ups, the rows of the thinned clinicians are their thinned singles. */
  lemma ThinnedSinglesOf(
    compatible: (Clinician, Patient) -> bool, patient: Patient,
    clinicians: seq<Clinician>, row: AvailabilityResponse)
    ensures var ts := Thinned(compatible, patient, clinicians, Therapy);
      (exists t :: t in ts && row in RowsOf(t, FollowUpDictFor(ts, Therapy))) <==>
      exists c :: c in clinicians && compatible(c, patient) && SharesAppointmentType(c, Therapy) && IsThinnedSingle(c, 60, row)
  {
    var ts := Thinned(compatible, patient, clinicians, Therapy);
    assert FollowUpDictFor(ts, Therapy) == map[];
    if t :| t in ts && row in RowsOf(t, map[]) {
      SingleOfThinned(compatible, patient, clinicians, t, row);
    }
    if c :| c in clinicians && compatible(c, patient) && SharesAppointmentType(c, Therapy) && IsThinnedSingle(c, 60, row) {
      ThinnedSingleIsRow(compatible, patient, clinicians, c, row);
    }
  }

  lemma SingleOfThinned(
    compatible: (Clinician, Patient) -> bool, patient: Patient,
    clinicians: seq<Clinician>, t: Clinician, row: AvailabilityResponse)
    requires t in Thinned(compatible, patient, clinicians, Therapy) && row in RowsOf(t, map[])
    ensures exists c :: c in clinicians && compatible(c, patient) && SharesAppointmentType(c, Therapy) && IsThinnedSingle(c, 60, row)
  {
    var c :| c in clinicians && compatible(c, patient) && SharesAppointmentType(c, Therapy)
      && t == WithThinnedSlots(c, 60);
    SingleRowsAreRowsForSlots(t, row);
    assert IsThinnedSingle(c, 60, row);
  }

  lemma ThinnedSingleIsRow(
    compatible: (Clinician, Patient) -> bool, patient: Patient,
    clinicians: seq<Clinician>, c: Clinician, row: AvailabilityResponse)
    requires c in clinicians && compatible(c, patient) && SharesAppointmentType(c, Therapy) && IsThinnedSingle(c, 60, row)
    ensures exists t :: t in Thinned(compatible, patient, clinicians, Therapy) && row in RowsOf(t, map[])
  {
    var t := WithThinnedSlots(c, 60);
    assert t in Thinned(compatible, patient, clinicians, Therapy);
    SingleRowsAreRowsForSlots(t, row);
    assert row in RowsOf(t, map[]);
  }

  /** With the follow-up map of a clinician's own slots, the clinician's rows pair each slot with
      each of its slots one to seven calendar days later, provided ids identify slots. */
  lemma AssessmentRowsOfClinician(t: Clinician, row: AvailabilityResponse)
    requires IdsIdentifySlots(t.availableSlots)
    ensures row in FromClinician(t, Some(FollowUpAppointments(t.availableSlots))) <==>
      (row.followUpSlot.Some? && row.slot in t.availableSlots && row.followUpSlot.value in t.availableSlots
       && InFollowUpWindow(row.slot, row.followUpSlot.value) && row == RowFor(t, row.slot, row.followUpSlot))
  {
    if |t.availableSlots| == 0 {
      NoSlotsNoRows(t);
    } else {
      FollowUpMapIsEmptyOnlyWithoutSlots(t.availableSlots);
      PairRowsAreWindowPairs(t, row);
    }
  }

  lemma NoSlotsNoRows(t: Clinician)
    requires |t.availableSlots| == 0
    ensures FromClinician(t, Some(FollowUpAppointments(t.availableSlots))) == []
  {
    FollowUpMapIsEmptyOnlyWithoutSlots(t.availableSlots);
  }

  lemma FollowUpMapIsEmptyOnlyWithoutSlots(slots: seq<AvailableSlot>)
    ensures |FollowUpAppointments(slots)| == 0 <==> |slots| == 0
  {
    if |slots| > 0 {
      assert slots[0].id in FollowUpAppointments(slots).Keys;
    }
  }

  lemma PairRowsAreWindowPairs(t: Clinician, row: AvailabilityResponse)
    requires IdsIdentifySlots(t.availableSlots)
    ensures IsPairRow(t, t.availableSlots, FollowUpAppointments(t.availableSlots), row) <==>
      (row.followUpSlot.Some? && row.slot in t.availableSlots && row.followUpSlot.value in t.availableSlots
       && InFollowUpWindow(row.slot, row.followUpSlot.value) && row == RowFor(t, row.slot, row.followUpSlot))
  {
    if row.slot in t.availableSlots && row.followUpSlot.Some? {
      FollowUpEntryIsOwnWindow(t.availableSlots, row.slot, row.followUpSlot.value);
    }
  }

  /** The row pairs two slots thinning keeps for clinician `c`, the second one to seven
      calendar days after the first. */
  ghost predicate IsThinnedPair(c: Clinician, duration: int, row: AvailabilityResponse) {
    && row.followUpSlot.Some?
    && row.slot in Thin(c, duration) && row.followUpSlot.value in Thin(c, duration)
    && InFollowUpWindow(row.slot, row.followUpSlot.value)
    && row == RowFor(c, row.slot, row.followUpSlot)
  }

  /** Rows for an assessment request pair a kept slot of an eligible clinician with a kept slot
      of the same clinician one to seven calendar days later, thinning for 90-minute
      appointments; every such pair is returned. */
  lemma AssessmentRowsAreWeekPairs(
    compatible: (Clinician, Patient) -> bool, patient: Patient,
    clinicians: seq<Clinician>, row: AvailabilityResponse)
    requires UniqueIds(clinicians)
    requires forall c :: c in clinicians ==> IdsIdentifySlots(c.availableSlots)
    ensures row in GetAvailableSlots(compatible, patient, clinicians, Assessment) <==>
      exists c :: c in clinicians && compatible(c, patient) && SharesAppointmentType(c, Assessment) && IsThinnedPair(c, 90, row)
  {
    ResultIsRowsOfThinnedClinicians(compatible, patient, clinicians, Assessment, row);
    ThinnedIdsAreUnique(compatible, patient, clinicians, Assessment);
    ThinnedPairsOfAll(compatible, patient, clinicians, row);
  }

  /** With follow-ups, the rows of the thinned clinicians are their thinned pairs. */
  lemma ThinnedPairsOfAll(
    compatible: (Clinician, Patient) -> bool, patient: Patient,
    clinicians: seq<Clinician>, row: AvailabilityResponse)
    requires UniqueIds(Thinned(compatible, patient, clinicians, Assessment))
    requires forall c :: c in clinicians ==> IdsIdentifySlots(c.availableSlots)
    ensures var ts := Thinned(compatible, patient, clinicians, Assessment);
      (exists t :: t in ts && row in RowsOf(t, FollowUpDictFor(ts, Assessment))) <==>
      exists c :: c in clinicians && compatible(c, patient) && SharesAppointmentType(c, Assessment) && IsThinnedPair(c, 90, row)
  {
    var ts := Thinned(compatible, patient, clinicians, Assessment);
    assert FollowUpDictFor(ts, Assessment) == FollowUpDict(ts);
    if t :| t in ts && row in RowsOf(t, FollowUpDict(ts)) {
      PairOfThinned(compatible, patient, clinicians, t, row);
    }
    if c :| c in clinicians && compatible(c, patient) && SharesAppointmentType(c, Assessment) && IsThinnedPair(c, 90, row) {
      ThinnedPairIsRow(compatible, patient, clinicians, c, row);
    }
  }

  lemma PairOfThinned(
    compatible: (Clinician, Patient) -> bool, patient: Patient,
    clinicians: seq<Clinician>, t: Clinician, row: AvailabilityResponse)
    requires UniqueIds(Thinned(compatible, patient, clinicians, Assessment))
    requires forall c :: c in clinicians ==> IdsIdentifySlots(c.availableSlots)
    requires var ts := Thinned(compatible, patient, clinicians, Assessment);
      t in ts && row in RowsOf(t, FollowUpDict(ts))
    ensures exists c :: c in clinicians && compatible(c, patient) && SharesAppointmentType(c, Assessment) && IsThinnedPair(c, 90, row)
  {
    var ts := Thinned(compatible, patient, clinicians, Assessment);
    var c :| c in clinicians && compatible(c, patient) && SharesAppointmentType(c, Assessment)
      && t == WithThinnedSlots(c, 90);
    ThinnedPairsOf(ts, c, row);
  }

  lemma ThinnedPairIsRow(
    compatible: (Clinician, Patient) -> bool, patient: Patient,
    clinicians: seq<Clinician>, c: Clinician, row: AvailabilityResponse)
    requires UniqueIds(Thinned(compatible, patient, clinicians, Assessment))
    requires c in clinicians && compatible(c, patient) && SharesAppointmentType(c, Assessment) && IsThinnedPair(c, 90, row)
    requires IdsIdentifySlots(c.availableSlots)
    ensures var ts := Thinned(compatible, patient, clinicians, Assessment);
      exists t :: t in ts && row in RowsOf(t, FollowUpDict(ts))
  {
    var ts := Thinned(compatible, patient, clinicians, Assessment);
    assert WithThinnedSlots(c, 90) in ts;
    ThinnedPairsOf(ts, c, row);
  }

  /** The rows the thinned clinician contributes for an assessment are its thinned pairs. */
  lemma ThinnedPairsOf(ts: seq<Clinician>, c: Clinician, row: AvailabilityResponse)
    requires UniqueIds(ts) && WithThinnedSlots(c, 90) in ts
    requires IdsIdentifySlots(c.availableSlots)
    ensures row in RowsOf(WithThinnedSlots(c, 90), FollowUpDict(ts)) <==> IsThinnedPair(c, 90, row)
  {
    var t := WithThinnedSlots(c, 90);
    FollowUpDictHoldsEveryClinician(ts, t);
    AssessmentRowsOfClinician(t, row);
  }
}
