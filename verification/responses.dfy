/** The rows shown to a patient: one open slot of one clinician, possibly paired with a follow-up
    slot, and the order rows are listed in. */
module Responses {
  import opened Results
  import opened Time
  import opened ClinicianModel
  import opened Sorting

  datatype AvailabilityResponse = AvailabilityResponse(
    clinicianFirstName: string,
    clinicianLastName: string,
    clinicianId: string,
    slot: AvailableSlot,
    followUpSlot: Option<AvailableSlot>)

  /** A row for clinician `c`. */
  function RowFor(c: Clinician, slot: AvailableSlot, followUp: Option<AvailableSlot>): AvailabilityResponse {
    AvailabilityResponse(c.firstName, c.lastName, c.id, slot, followUp)
  }

  /** The row names clinician `c` by first name, last name and id. */
  ghost predicate CarriesClinician(row: AvailabilityResponse, c: Clinician) {
    row.clinicianFirstName == c.firstName && row.clinicianLastName == c.lastName && row.clinicianId == c.id
  }

  /** `map.get(id, [])`. */
  function FollowUpsFor(followUps: map<string, seq<AvailableSlot>>, id: string): seq<AvailableSlot> {
    if id in followUps then followUps[id] else []
  }

  /** One row per slot, in slot order, none with a follow-up. */
  function Singles(c: Clinician, slots: seq<AvailableSlot>): (rows: seq<AvailabilityResponse>)
    ensures |rows| == |slots|
    ensures forall i :: 0 <= i < |slots| ==> rows[i].slot == slots[i] && rows[i].followUpSlot.None?
    ensures forall row :: row in rows ==> CarriesClinician(row, c)
    decreases |slots|
  {
    if |slots| == 0 then []
    else
      var rest := Singles(c, slots[1..]);
      assert forall i :: 1 <= i < |slots| ==> slots[i] == slots[1..][i - 1];
      [RowFor(c, slots[0], None)] + rest
  }

  /** Number of (slot, follow-up) pairs: the sum over slots of `len(map.get(slot.id, []))`. */
  function PairCount(slots: seq<AvailableSlot>, followUps: map<string, seq<AvailableSlot>>): nat
    decreases |slots|
  {
    if |slots| == 0 then 0 else |FollowUpsFor(followUps, slots[0].id)| + PairCount(slots[1..], followUps)
  }

  /** The row pairs one of the slots with one of the follow-ups listed for that slot's id. */
  ghost predicate IsPairRow(c: Clinician, slots: seq<AvailableSlot>, followUps: map<string, seq<AvailableSlot>>, row: AvailabilityResponse) {
    && CarriesClinician(row, c)
    && row.slot in slots
    && row.followUpSlot.Some?
    && row.followUpSlot.value in FollowUpsFor(followUps, row.slot.id)
  }

  /** The rows for one slot: one per follow-up listed for its id. */
  function RowsForSlot(c: Clinician, slot: AvailableSlot, followUps: seq<AvailableSlot>): (rows: seq<AvailabilityResponse>)
    ensures |rows| == |followUps|
    ensures forall i :: 0 <= i < |followUps| ==> rows[i] == RowFor(c, slot, Some(followUps[i]))
    ensures forall row :: row in rows <==> row.followUpSlot.Some? && row.followUpSlot.value in followUps && row == RowFor(c, slot, row.followUpSlot)
    decreases |followUps|
  {
    if |followUps| == 0 then []
    else
      var rest := RowsForSlot(c, slot, followUps[1..]);
      assert followUps == [followUps[0]] + followUps[1..];
      assert forall i :: 1 <= i < |followUps| ==> followUps[i] == followUps[1..][i - 1];
      [RowFor(c, slot, Some(followUps[0]))] + rest
  }

  /** Per slot in order, one row per listed follow-up; a slot missing from the map gives none. */
  function PairedRows(c: Clinician, slots: seq<AvailableSlot>, followUps: map<string, seq<AvailableSlot>>): (rows: seq<AvailabilityResponse>)
    ensures |rows| == PairCount(slots, followUps)
    ensures forall row :: row in rows <==> IsPairRow(c, slots, followUps, row)
    decreases |slots|
  {
    if |slots| == 0 then []
    else
      var rest := PairedRows(c, slots[1..], followUps);
      assert slots == [slots[0]] + slots[1..];
      RowsForSlot(c, slots[0], FollowUpsFor(followUps, slots[0].id)) + rest
  }

  /** The paired rows of a single slot are that slot's rows, one per listed follow-up. */
  lemma PairedRowsOfOneSlot(c: Clinician, slot: AvailableSlot, followUps: map<string, seq<AvailableSlot>>)
    ensures PairedRows(c, [slot], followUps) == RowsForSlot(c, slot, FollowUpsFor(followUps, slot.id))
  {
    assert [slot][1..] == [];
  }

  /** Pairing works slot by slot: the rows for `s + t` are the rows for `s` followed by the rows
      for `t`. */
  lemma {:induction false} PairedRowsAppend(c: Clinician, s: seq<AvailableSlot>, t: seq<AvailableSlot>, followUps: map<string, seq<AvailableSlot>>)
    ensures PairedRows(c, s + t, followUps) == PairedRows(c, s, followUps) + PairedRows(c, t, followUps)
    decreases |s|
  {
    if |s| == 0 {
      assert s + t == t;
    } else {
      assert (s + t)[0] == s[0] && (s + t)[1..] == s[1..] + t;
      PairedRowsAppend(c, s[1..], t, followUps);
    }
  }

  /** `AvailabilityResponse.from_clinician`: without a follow-up map (none, or an empty one) one
      single row per slot; otherwise one row per (slot, listed follow-up) pair. */
  function FromClinician(c: Clinician, followUps: Option<map<string, seq<AvailableSlot>>>): (rows: seq<AvailabilityResponse>)
    ensures forall row :: row in rows ==> CarriesClinician(row, c)
    ensures (followUps.None? || |followUps.value| == 0) ==>
      && |rows| == |c.availableSlots|
      && forall i :: 0 <= i < |rows| ==> rows[i].slot == c.availableSlots[i] && rows[i].followUpSlot.None?
    ensures (followUps.Some? && |followUps.value| > 0) ==>
      && |rows| == PairCount(c.availableSlots, followUps.value)
      && forall row :: row in rows <==> IsPairRow(c, c.availableSlots, followUps.value, row)
  {
    if followUps.None? || |followUps.value| == 0 then Singles(c, c.availableSlots)
    else PairedRows(c, c.availableSlots, followUps.value)
  }

  /** With a non-empty follow-up map, the rows come slot by slot in slot order: splitting the
      slots splits the rows. */
  lemma FromClinicianPairsSlotBySlot(c: Clinician, followUps: map<string, seq<AvailableSlot>>, s: seq<AvailableSlot>, t: seq<AvailableSlot>)
    requires |followUps| > 0 && c.availableSlots == s + t
    ensures FromClinician(c, Some(followUps)) == PairedRows(c, s, followUps) + PairedRows(c, t, followUps)
  {
    PairedRowsAppend(c, s, t, followUps);
  }

  /** Without follow-ups, the rows are exactly the single rows for the clinician's slots. */
  lemma SingleRowsAreRowsForSlots(c: Clinician, row: AvailabilityResponse)
    ensures row in FromClinician(c, None) <==> row.slot in c.availableSlots && row == RowFor(c, row.slot, None)
  {
    var rows := FromClinician(c, None);
    if row in rows {
      var i :| 0 <= i < |rows| && rows[i] == row;
      assert rows[i].slot == c.availableSlots[i];
    }
    if row.slot in c.availableSlots && row == RowFor(c, row.slot, None) {
      var i :| 0 <= i < |c.availableSlots| && c.availableSlots[i] == row.slot;
      assert rows[i] in rows;
      assert rows[i] == RowFor(c, c.availableSlots[i], None);
    }
  }

  // ---------------------------------------------------------------------------------------
  // Ordering.

  /** `sort_fields`: slot start, then clinician last name, first name and id. */
  datatype SortKey = SortKey(start: Minute, lastName: string, firstName: string, clinicianId: string)

  function SortFields(row: AvailabilityResponse): SortKey {
    SortKey(row.slot.date, row.clinicianLastName, row.clinicianFirstName, row.clinicianId)
  }

  /** Python's `<` on strings: by code point, a proper prefix first. */
  predicate StringLess(a: string, b: string)
    decreases |a|
  {
    if |a| == 0 then |b| > 0
    else if |b| == 0 then false
    else if a[0] != b[0] then a[0] < b[0]
    else StringLess(a[1..], b[1..])
  }

  lemma {:induction false} StringLessIrreflexive(a: string)
    ensures !StringLess(a, a)
    decreases |a|
  {
    if |a| > 0 {
      StringLessIrreflexive(a[1..]);
    }
  }

  lemma {:induction false} StringLessTransitive(a: string, b: string, c: string)
    requires StringLess(a, b) && StringLess(b, c)
    ensures StringLess(a, c)
    decreases |a|
  {
    if |a| > 0 && |b| > 0 && |c| > 0 && a[0] == b[0] == c[0] {
      StringLessTransitive(a[1..], b[1..], c[1..]);
    }
  }

  lemma {:induction false} StringLessConnected(a: string, b: string)
    requires a != b
    ensures StringLess(a, b) || StringLess(b, a)
    decreases |a|
  {
    if |a| > 0 && |b| > 0 && a[0] == b[0] {
      assert a == [a[0]] + a[1..] && b == [b[0]] + b[1..];
      StringLessConnected(a[1..], b[1..]);
    }
  }

  /** Tuple comparison of sort keys: the first field that differs decides. */
  predicate KeyLess(a: SortKey, b: SortKey) {
    || a.start < b.start
    || (a.start == b.start && StringLess(a.lastName, b.lastName))
    || (a.start == b.start && a.lastName == b.lastName && StringLess(a.firstName, b.firstName))
    || (a.start == b.start && a.lastName == b.lastName && a.firstName == b.firstName && StringLess(a.clinicianId, b.clinicianId))
  }

  /** The key comparison is a strict total order: irreflexive, transitive, and any two different
      keys are comparable. */
  lemma KeyLessIsStrictTotalOrder(a: SortKey, b: SortKey, c: SortKey)
    ensures !KeyLess(a, a)
    ensures KeyLess(a, b) && KeyLess(b, c) ==> KeyLess(a, c)
    ensures a != b ==> KeyLess(a, b) || KeyLess(b, a)
  {
    StringLessIrreflexive(a.lastName);
    StringLessIrreflexive(a.firstName);
    StringLessIrreflexive(a.clinicianId);
    if KeyLess(a, b) && KeyLess(b, c) {
      if StringLess(a.lastName, b.lastName) && StringLess(b.lastName, c.lastName) {
        StringLessTransitive(a.lastName, b.lastName, c.lastName);
      }
      if StringLess(a.firstName, b.firstName) && StringLess(b.firstName, c.firstName) {
        StringLessTransitive(a.firstName, b.firstName, c.firstName);
      }
      if StringLess(a.clinicianId, b.clinicianId) && StringLess(b.clinicianId, c.clinicianId) {
        StringLessTransitive(a.clinicianId, b.clinicianId, c.clinicianId);
      }
    }
    if a != b {
      if a.lastName != b.lastName {
        StringLessConnected(a.lastName, b.lastName);
      }
      if a.firstName != b.firstName {
        StringLessConnected(a.firstName, b.firstName);
      }
      if a.clinicianId != b.clinicianId {
        StringLessConnected(a.clinicianId, b.clinicianId);
      }
    }
  }

  /** `a` may be listed before `b`: `b`'s key is not smaller. */
  predicate RowLe(a: AvailabilityResponse, b: AvailabilityResponse) {
    !KeyLess(SortFields(b), SortFields(a))
  }

  lemma RowLeIsTotalPreorder()
    ensures TotalPreorder(RowLe)
  {
    forall a, b ensures RowLe(a, b) || RowLe(b, a) {
      KeyLessIsStrictTotalOrder(SortFields(a), SortFields(b), SortFields(a));
    }
    forall a, b, c | RowLe(a, b) && RowLe(b, c) ensures RowLe(a, c) {
      var ka, kb, kc := SortFields(a), SortFields(b), SortFields(c);
      KeyLessIsStrictTotalOrder(kc, ka, kb);
      KeyLessIsStrictTotalOrder(ka, kb, kc);
    }
  }

  /** `sorted(rows, key=lambda r: r.sort_fields)`: a stable sort by sort key. */
  function SortResponses(rows: seq<AvailabilityResponse>): (sorted: seq<AvailabilityResponse>)
    ensures SortedBy(RowLe, sorted)
    ensures multiset(sorted) == multiset(rows)
  {
    RowLeIsTotalPreorder();
    InsertionSort(RowLe, rows)
  }
}
