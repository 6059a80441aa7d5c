/** The clinician side of the availability pipeline: which clinicians may see the patient, how
    each clinician's open slots are thinned to respect spacing and capacity, and which thinned
    slots can serve as follow-ups of which. */
module ClinicianController {
  import opened Time
  import opened AppointmentModel
  import opened Requests
  import opened ClinicianModel
  import opened PatientModel
  import opened Sequences
  import opened Sorting

  // ---------------------------------------------------------------------------------------
  // Eligibility.

  /** The clinician's role allows at least one of the category's appointment types. */
  predicate SharesAppointmentType(c: Clinician, category: AppointmentCategory) {
    exists t | t in Types(category) :: t in AllowedAppointmentTypes(c.clinicianType)
  }

  /** With the fixed tables, sharing a type is the same as the role matching the category:
      psychologists exactly for assessments, therapists exactly for therapy. */
  lemma SharesTypeIffRoleMatches(c: Clinician, category: AppointmentCategory)
    ensures SharesAppointmentType(c, category) <==> (c.clinicianType.Psychologist? <==> category.Assessment?)
  {
    if category.Assessment? && c.clinicianType.Psychologist? {
      assert AssessmentSession1 in Types(category);
    }
    if category.Therapy? && c.clinicianType.Therapist? {
      assert TherapyIntake in Types(category);
    }
  }

  /** Each category's type list is exactly one role's list in the role table. */
  lemma EachCategoryIsOneRole()
    ensures Types(Assessment) == AllowedAppointmentTypes(Psychologist)
    ensures Types(Therapy) == AllowedAppointmentTypes(Therapist)
    ensures Types(Assessment) != AllowedAppointmentTypes(Therapist)
    ensures Types(Therapy) != AllowedAppointmentTypes(Psychologist)
  {
  }

  /** `get_compatible_clinicians`: in input order, the clinicians the patient may see (the
      externally defined `compatible`) whose role shares a type with the category. */
  function CompatibleClinicians(
    compatible: (Clinician, Patient) -> bool, patient: Patient,
    clinicians: seq<Clinician>, category: AppointmentCategory): (r: seq<Clinician>)
    ensures IsSubsequence(r, clinicians)
    ensures forall c :: c in r <==> c in clinicians && compatible(c, patient) && SharesAppointmentType(c, category)
    ensures forall c :: multiset(r)[c] == (if compatible(c, patient) && SharesAppointmentType(c, category) then multiset(clinicians)[c] else 0)
  {
    Filter(c => compatible(c, patient) && SharesAppointmentType(c, category), clinicians)
  }

  // ---------------------------------------------------------------------------------------
  // Slot thinning.

  const DaysPerWeek: nat := 7

  /** What thinning needs to know about a clinician: booked appointments and the two caps. */
  datatype Capacity = Capacity(booked: seq<Appointment>, maxDaily: int, maxWeekly: int)

  function CapacityOf(c: Clinician): Capacity {
    Capacity(c.appointments, c.maxDailyAppointments, c.maxWeeklyAppointments)
  }

  /** Kept slots on calendar day `d`. */
  function SlotsOnDay(kept: seq<AvailableSlot>, d: int): nat
    decreases |kept|
  {
    if |kept| == 0 then 0
    else SlotsOnDay(kept[..|kept| - 1], d) + (if Day(kept[|kept| - 1].date) == d then 1 else 0)
  }

  /** Commitments on day `d`: booked appointments plus slots kept so far. */
  function DayLoad(cap: Capacity, kept: seq<AvailableSlot>, d: int): nat {
    AppointmentsOnDay(cap.booked, d) + SlotsOnDay(kept, d)
  }

  /** Commitments on the `n` days ending with `d`: days d, d-1, ..., d-(n-1). */
  function TrailingLoad(cap: Capacity, kept: seq<AvailableSlot>, d: int, n: nat): nat {
    if n == 0 then 0 else TrailingLoad(cap, kept, d, n - 1) + DayLoad(cap, kept, d - (n - 1))
  }

  /** Commitments on the trailing seven days ending with `d` (a rolling window, not a calendar
      week). */
  function WeekLoad(cap: Capacity, kept: seq<AvailableSlot>, d: int): nat {
    TrailingLoad(cap, kept, d, DaysPerWeek)
  }

  /** Reason 1: the slot starts less than `duration` minutes after the last kept slot. */
  predicate TooClose(kept: seq<AvailableSlot>, slot: AvailableSlot, duration: int) {
    |kept| > 0 && slot.date < kept[|kept| - 1].date + duration
  }

  /** Reason 2: the slot's day is already at the daily cap. */
  predicate DayFull(cap: Capacity, kept: seq<AvailableSlot>, slot: AvailableSlot) {
    DayLoad(cap, kept, Day(slot.date)) >= cap.maxDaily
  }

  /** Reason 3: the trailing seven days are already at the weekly cap. */
  predicate WeekFull(cap: Capacity, kept: seq<AvailableSlot>, slot: AvailableSlot) {
    WeekLoad(cap, kept, Day(slot.date)) >= cap.maxWeekly
  }

  predicate Admits(cap: Capacity, duration: int, kept: seq<AvailableSlot>, slot: AvailableSlot) {
    !TooClose(kept, slot, duration) && !DayFull(cap, kept, slot) && !WeekFull(cap, kept, slot)
  }

  /** The greedy forward pass: walks `slots` in order, appending each admitted slot to `kept`.
      The result extends `kept` with a subsequence of `slots`. */
  function ThinFrom(cap: Capacity, duration: int, slots: seq<AvailableSlot>, kept: seq<AvailableSlot>): (r: seq<AvailableSlot>)
    ensures |kept| <= |r| && r[..|kept|] == kept
    ensures IsSubsequence(r[|kept|..], slots)
    decreases |slots|
  {
    if |slots| == 0 then kept
    else if Admits(cap, duration, kept, slots[0]) then
      var r := ThinFrom(cap, duration, slots[1..], kept + [slots[0]]);
      assert r[|kept|..][1..] == r[|kept| + 1..];
      r
    else ThinFrom(cap, duration, slots[1..], kept)
  }

  predicate DateLe(a: AvailableSlot, b: AvailableSlot) {
    a.date <= b.date
  }

  lemma DateLeIsTotalPreorder()
    ensures TotalPreorder(DateLe)
  {
  }

  /** `sorted(slots, key=lambda slot: slot.date)`. */
  function SortByDate(slots: seq<AvailableSlot>): (sorted: seq<AvailableSlot>)
    ensures SortedBy(DateLe, sorted)
    ensures multiset(sorted) == multiset(slots)
  {
    DateLeIsTotalPreorder();
    InsertionSort(DateLe, slots)
  }

  /** Consecutive slots start at least `duration` minutes apart. */
  ghost predicate Spaced(kept: seq<AvailableSlot>, duration: int) {
    forall i :: 0 <= i < |kept| - 1 ==> kept[i + 1].date >= kept[i].date + duration
  }

  /** Every day that holds a kept slot respects the daily cap, and so does its trailing week. */
  ghost predicate WithinCaps(cap: Capacity, kept: seq<AvailableSlot>) {
    && (forall i :: 0 <= i < |kept| ==> DayLoad(cap, kept, Day(kept[i].date)) <= cap.maxDaily)
    && (forall i :: 0 <= i < |kept| ==> WeekLoad(cap, kept, Day(kept[i].date)) <= cap.maxWeekly)
  }

  /** The slots `filter_availability_slots` offers for clinician `c` and appointments of
      `duration` minutes: sorted by start, spaced, and within both caps. */
  function Thin(c: Clinician, duration: int): (kept: seq<AvailableSlot>)
    ensures IsSubsequence(kept, SortByDate(c.availableSlots))
    ensures forall s :: s in kept ==> s in c.availableSlots
    ensures SortedBy(DateLe, kept)
  {
    var sorted := SortByDate(c.availableSlots);
    var kept := ThinFrom(CapacityOf(c), duration, sorted, []);
    ThinKeepsInvariants(CapacityOf(c), duration, sorted, []);
    assert kept[0..] == kept;
    SubsequenceMembers(kept, sorted);
    assert forall s :: s in sorted ==> s in multiset(c.availableSlots);
    kept
  }

  /** The kept slots are at least `duration` apart, and every kept slot's day and trailing seven
      days stay within the caps, counting bookings and kept slots. */
  lemma ThinIsSpacedWithinCaps(c: Clinician, duration: int)
    ensures Spaced(Thin(c, duration), duration)
    ensures WithinCaps(CapacityOf(c), Thin(c, duration))
  {
    var sorted := SortByDate(c.availableSlots);
    ThinKeepsInvariants(CapacityOf(c), duration, sorted, []);
    assert Thin(c, duration)[0..] == Thin(c, duration);
  }

  // Proof of the invariants of the pass.

  lemma {:induction false} SlotsOnDayAppend(kept: seq<AvailableSlot>, s: AvailableSlot, d: int)
    ensures SlotsOnDay(kept + [s], d) == SlotsOnDay(kept, d) + (if Day(s.date) == d then 1 else 0)
  {
    assert (kept + [s])[..|kept|] == kept;
  }

  /** Appending a slot adds one to the trailing load of exactly the windows that contain its day. */
  lemma {:induction false} TrailingLoadAppend(cap: Capacity, kept: seq<AvailableSlot>, s: AvailableSlot, d: int, n: nat)
    ensures TrailingLoad(cap, kept + [s], d, n)
         == TrailingLoad(cap, kept, d, n) + (if d - n < Day(s.date) <= d then 1 else 0)
  {
    if n > 0 {
      TrailingLoadAppend(cap, kept, s, d, n - 1);
      SlotsOnDayAppend(kept, s, d - (n - 1));
    }
  }

  /** Admitting a slot that starts no earlier than every kept slot keeps the invariants. */
  lemma AdmitPreservesInvariants(cap: Capacity, duration: int, kept: seq<AvailableSlot>, s: AvailableSlot)
    requires SortedBy(DateLe, kept) && Spaced(kept, duration) && WithinCaps(cap, kept)
    requires |kept| > 0 ==> kept[|kept| - 1].date <= s.date
    requires Admits(cap, duration, kept, s)
    ensures SortedBy(DateLe, kept + [s]) && Spaced(kept + [s], duration) && WithinCaps(cap, kept + [s])
  {
    AdmitKeepsOrder(duration, kept, s);
    AdmitKeepsDailyCap(cap, kept, s);
    AdmitKeepsWeeklyCap(cap, kept, s);
  }

  lemma AdmitKeepsOrder(duration: int, kept: seq<AvailableSlot>, s: AvailableSlot)
    requires SortedBy(DateLe, kept) && Spaced(kept, duration)
    requires |kept| > 0 ==> kept[|kept| - 1].date + duration <= s.date && kept[|kept| - 1].date <= s.date
    ensures SortedBy(DateLe, kept + [s]) && Spaced(kept + [s], duration)
  {
    var k := kept + [s];
    forall i | 0 <= i < |kept| ensures kept[i].date <= s.date {
      if i < |kept| - 1 {
        assert DateLe(kept[i], kept[|kept| - 1]);
      }
    }
    forall i, j | 0 <= i < j < |k| ensures DateLe(k[i], k[j]) {
      if j < |kept| {
        assert DateLe(kept[i], kept[j]);
      }
    }
    forall i | 0 <= i < |k| - 1 ensures k[i + 1].date >= k[i].date + duration {
      if i + 1 < |kept| {
        assert k[i + 1] == kept[i + 1] && k[i] == kept[i];
      }
    }
  }

  lemma AdmitKeepsDailyCap(cap: Capacity, kept: seq<AvailableSlot>, s: AvailableSlot)
    requires forall i :: 0 <= i < |kept| ==> DayLoad(cap, kept, Day(kept[i].date)) <= cap.maxDaily
    requires !DayFull(cap, kept, s)
    ensures forall i :: 0 <= i < |kept + [s]| ==> DayLoad(cap, kept + [s], Day((kept + [s])[i].date)) <= cap.maxDaily
  {
    var k := kept + [s];
    forall i | 0 <= i < |k| ensures DayLoad(cap, k, Day(k[i].date)) <= cap.maxDaily {
      SlotsOnDayAppend(kept, s, Day(k[i].date));
      if i < |kept| {
        assert k[i] == kept[i];
      }
    }
  }

  lemma AdmitKeepsWeeklyCap(cap: Capacity, kept: seq<AvailableSlot>, s: AvailableSlot)
    requires forall i :: 0 <= i < |kept| ==> kept[i].date <= s.date
    requires forall i :: 0 <= i < |kept| ==> WeekLoad(cap, kept, Day(kept[i].date)) <= cap.maxWeekly
    requires !WeekFull(cap, kept, s)
    ensures forall i :: 0 <= i < |kept + [s]| ==> WeekLoad(cap, kept + [s], Day((kept + [s])[i].date)) <= cap.maxWeekly
  {
    var k := kept + [s];
    forall i | 0 <= i < |k| ensures WeekLoad(cap, k, Day(k[i].date)) <= cap.maxWeekly {
      var d := Day(k[i].date);
      TrailingLoadAppend(cap, kept, s, d, DaysPerWeek);
      if i < |kept| {
        assert k[i] == kept[i];
        DayMonotone(kept[i].date, s.date);
      }
    }
  }

  /** The pass over date-sorted slots, starting after the kept slots, keeps the invariants. */
  lemma {:induction false} ThinKeepsInvariants(cap: Capacity, duration: int, slots: seq<AvailableSlot>, kept: seq<AvailableSlot>)
    requires SortedBy(DateLe, slots)
    requires SortedBy(DateLe, kept) && Spaced(kept, duration) && WithinCaps(cap, kept)
    requires |kept| > 0 ==> forall j :: 0 <= j < |slots| ==> kept[|kept| - 1].date <= slots[j].date
    ensures var r := ThinFrom(cap, duration, slots, kept);
      SortedBy(DateLe, r) && Spaced(r, duration) && WithinCaps(cap, r)
    decreases |slots|
  {
    if |slots| > 0 {
      var rest := slots[1..];
      assert SortedBy(DateLe, rest) by {
        forall i, j | 0 <= i < j < |rest| ensures DateLe(rest[i], rest[j]) {
          assert DateLe(slots[i + 1], slots[j + 1]);
        }
      }
      forall j | 0 <= j < |rest| ensures slots[0].date <= rest[j].date {
        assert DateLe(slots[0], slots[j + 1]);
      }
      if Admits(cap, duration, kept, slots[0]) {
        AdmitPreservesInvariants(cap, duration, kept, slots[0]);
        ThinKeepsInvariants(cap, duration, rest, kept + [slots[0]]);
      } else {
        ThinKeepsInvariants(cap, duration, rest, kept);
      }
    }
  }

  // Why slots are dropped, and idempotence.

  /** Extending the input by one slot either appends that slot to the output or leaves the
      output unchanged, and it is left out exactly when one of the three reasons holds. */
  lemma {:induction false} DroppedOnlyForAReason(cap: Capacity, duration: int, slots: seq<AvailableSlot>, kept: seq<AvailableSlot>, x: AvailableSlot)
    ensures var before := ThinFrom(cap, duration, slots, kept);
      var after := ThinFrom(cap, duration, slots + [x], kept);
      && (after == before + [x] || after == before)
      && (after == before <==> TooClose(before, x, duration) || DayFull(cap, before, x) || WeekFull(cap, before, x))
    decreases |slots|
  {
    if |slots| == 0 {
      assert [x][1..] == [];
    } else {
      assert (slots + [x])[0] == slots[0] && (slots + [x])[1..] == slots[1..] + [x];
      if Admits(cap, duration, kept, slots[0]) {
        DroppedOnlyForAReason(cap, duration, slots[1..], kept + [slots[0]], x);
      } else {
        DroppedOnlyForAReason(cap, duration, slots[1..], kept, x);
      }
    }
  }

  /** Running the pass again over the slots it newly kept reproduces the same output. */
  lemma {:induction false} RethinReproduces(cap: Capacity, duration: int, slots: seq<AvailableSlot>, kept: seq<AvailableSlot>)
    ensures var r := ThinFrom(cap, duration, slots, kept);
      ThinFrom(cap, duration, r[|kept|..], kept) == r
    decreases |slots|
  {
    var r := ThinFrom(cap, duration, slots, kept);
    if |slots| == 0 {
      assert r[|kept|..] == [];
    } else if Admits(cap, duration, kept, slots[0]) {
      var kept' := kept + [slots[0]];
      RethinReproduces(cap, duration, slots[1..], kept');
      assert r[|kept|..][0] == slots[0];
      assert r[|kept|..][1..] == r[|kept'|..];
    } else {
      RethinReproduces(cap, duration, slots[1..], kept);
    }
  }

  /** Thinning a clinician whose slots are already the thinned ones changes nothing. */
  lemma ThinIsIdempotent(c: Clinician, duration: int)
    ensures Thin(c.(availableSlots := Thin(c, duration)), duration) == Thin(c, duration)
  {
    var kept := Thin(c, duration);
    var c' := c.(availableSlots := kept);
    DateLeIsTotalPreorder();
    SortSortedIsIdentity(DateLe, kept);
    assert SortByDate(kept) == kept;
    RethinReproduces(CapacityOf(c), duration, SortByDate(c.availableSlots), []);
    assert kept[0..] == kept;
    assert CapacityOf(c') == CapacityOf(c);
  }

  // The pass as the source writes it: Counter maps as caches of the loads.

  /** Python's `Counter` lookup: a missing key counts zero. */
  function CountOf(counter: map<int, nat>, d: int): nat {
    if d in counter then counter[d] else 0
  }

  /** `Counter(appointment.scheduled_for.date() for appointment in appointments)`. */
  method CountAppointmentDays(appts: seq<Appointment>) returns (counter: map<int, nat>)
    ensures forall d :: CountOf(counter, d) == AppointmentsOnDay(appts, d)
  {
    counter := map[];
    var k := 0;
    while k < |appts|
      invariant 0 <= k <= |appts|
      invariant forall d :: CountOf(counter, d) == AppointmentsOnDay(appts[..k], d)
    {
      var day := Day(appts[k].scheduledFor);
      assert DayKeys(appts[..k + 1]) == DayKeys(appts[..k]) + [day];
      var counter' := counter[day := CountOf(counter, day) + 1];
      forall d ensures CountOf(counter', d) == AppointmentsOnDay(appts[..k + 1], d) {
        assert multiset(DayKeys(appts[..k + 1])) == multiset(DayKeys(appts[..k])) + multiset{day};
        assert AppointmentsOnDay(appts[..k + 1], d) == AppointmentsOnDay(appts[..k], d) + (if d == day then 1 else 0);
        assert CountOf(counter, d) == AppointmentsOnDay(appts[..k], d);
        if d == day {
          assert CountOf(counter', d) == CountOf(counter, d) + 1;
        } else {
          assert CountOf(counter', d) == CountOf(counter, d);
        }
      }
      counter := counter';
      k := k + 1;
    }
    assert appts[..k] == appts;
  }

  /** The source's seven-day loop: commitments on `date` and the six days before it, read from
      the two counters. */
  method CommittedForWeek(
    cap: Capacity, kept: seq<AvailableSlot>,
    availabilityCounter: map<int, nat>, appointmentCounter: map<int, nat>, slotDate: int)
    returns (committed: nat)
    requires forall d :: CountOf(availabilityCounter, d) == SlotsOnDay(kept, d)
    requires forall d :: CountOf(appointmentCounter, d) == AppointmentsOnDay(cap.booked, d)
    ensures committed == WeekLoad(cap, kept, slotDate)
  {
    committed := 0;
    var i := 0;
    while i < DaysPerWeek
      invariant 0 <= i <= DaysPerWeek
      invariant committed == TrailingLoad(cap, kept, slotDate, i)
    {
      var date := slotDate - i;
      committed := committed + CountOf(availabilityCounter, date) + CountOf(appointmentCounter, date);
      i := i + 1;
    }
  }

  /** `filter_availability_slots`, step by step as the source writes it. */
  method FilterAvailabilitySlots(c: Clinician, duration: int) returns (filtered: seq<AvailableSlot>)
    ensures filtered == Thin(c, duration)
  {
    var cap := CapacityOf(c);
    var appointmentCounter := CountAppointmentDays(c.appointments);
    var sorted := SortByDate(c.availableSlots);
    filtered := [];
    var availabilityCounter: map<int, nat> := map[];
    var k := 0;
    while k < |sorted|
      invariant 0 <= k <= |sorted|
      invariant ThinFrom(cap, duration, sorted[k..], filtered) == Thin(c, duration)
      invariant forall d :: CountOf(availabilityCounter, d) == SlotsOnDay(filtered, d)
    {
      var slot := sorted[k];
      assert sorted[k..][0] == slot && sorted[k..][1..] == sorted[k + 1..];
      if |filtered| > 0 && slot.date < filtered[|filtered| - 1].date + duration {
        // too close to the previous kept slot
      } else {
        var slotDate := Day(slot.date);
        var committedForDate := CountOf(availabilityCounter, slotDate) + CountOf(appointmentCounter, slotDate);
        if committedForDate >= c.maxDailyAppointments {
          // the day is full
        } else {
          var committedForWeek := CommittedForWeek(cap, filtered, availabilityCounter, appointmentCounter, slotDate);
          if committedForWeek < c.maxWeeklyAppointments {
            forall d ensures CountOf(availabilityCounter[slotDate := CountOf(availabilityCounter, slotDate) + 1], d)
                == SlotsOnDay(filtered + [slot], d) {
              SlotsOnDayAppend(filtered, slot, d);
            }
            availabilityCounter := availabilityCounter[slotDate := CountOf(availabilityCounter, slotDate) + 1];
            filtered := filtered + [slot];
          }
        }
      }
      k := k + 1;
    }
  }

  // ---------------------------------------------------------------------------------------
  // Follow-up pairing (calendar days).

  /** `f` falls on a calendar day 1 to 7 days after `slot`'s day. */
  predicate InFollowUpWindow(slot: AvailableSlot, f: AvailableSlot) {
    Day(slot.date) + 1 <= Day(f.date) <= Day(slot.date) + DaysPerWeek
  }

  /** The follow-ups of `slot` among `slots`, in slot order. */
  function FollowUpsOf(slots: seq<AvailableSlot>, slot: AvailableSlot): (r: seq<AvailableSlot>)
    ensures IsSubsequence(r, slots)
    ensures forall f :: f in r <==> f in slots && InFollowUpWindow(slot, f)
    ensures forall f :: f in r ==> Day(slot.date) < Day(f.date) && f != slot
    ensures forall f :: multiset(r)[f] == if InFollowUpWindow(slot, f) then multiset(slots)[f] else 0
  {
    Filter(f => InFollowUpWindow(slot, f), slots)
  }

  /** The follow-up dict after the loop has visited `visited` (a later slot with the same id
      overwrites an earlier one's entry). */
  function FollowUpMapOver(all: seq<AvailableSlot>, visited: seq<AvailableSlot>): (m: map<string, seq<AvailableSlot>>)
    ensures m.Keys == set s | s in visited :: s.id
    ensures forall k :: k in m ==> exists s :: s in visited && s.id == k && m[k] == FollowUpsOf(all, s)
    decreases |visited|
  {
    if |visited| == 0 then map[]
    else
      var m := FollowUpMapOver(all, visited[..|visited| - 1]);
      FollowUpMapStep(all, visited, m);
      m[visited[|visited| - 1].id := FollowUpsOf(all, visited[|visited| - 1])]
  }

  lemma FollowUpMapStep(all: seq<AvailableSlot>, visited: seq<AvailableSlot>, m: map<string, seq<AvailableSlot>>)
    requires |visited| > 0
    requires m.Keys == set s | s in visited[..|visited| - 1] :: s.id
    requires forall k :: k in m ==> exists s :: s in visited[..|visited| - 1] && s.id == k && m[k] == FollowUpsOf(all, s)
    ensures var r := m[visited[|visited| - 1].id := FollowUpsOf(all, visited[|visited| - 1])];
      && r.Keys == (set s | s in visited :: s.id)
      && forall k :: k in r ==> exists s :: s in visited && s.id == k && r[k] == FollowUpsOf(all, s)
  {
    var prefix := visited[..|visited| - 1];
    var last := visited[|visited| - 1];
    assert visited == prefix + [last];
    var r := m[last.id := FollowUpsOf(all, last)];
    assert r.Keys == set s | s in visited :: s.id;
    forall k | k in r
      ensures exists s :: s in visited && s.id == k && r[k] == FollowUpsOf(all, s)
    {
      if k != last.id {
        var s :| s in prefix && s.id == k && m[k] == FollowUpsOf(all, s);
        assert s in visited;
      } else {
        assert last in visited;
      }
    }
  }

  /** `get_follow_up_appointments`: one key per slot id; the value lists, in slot order, the
      slots 1 to 7 calendar days after the slot holding that id. */
  function FollowUpAppointments(slots: seq<AvailableSlot>): (m: map<string, seq<AvailableSlot>>)
    ensures m.Keys == set s | s in slots :: s.id
    ensures forall k :: k in m ==> exists s :: s in slots && s.id == k && m[k] == FollowUpsOf(slots, s)
  {
    FollowUpMapOver(slots, slots)
  }

  /** No two different slots share an id. */
  ghost predicate IdsIdentifySlots(slots: seq<AvailableSlot>) {
    forall a, b :: a in slots && b in slots && a.id == b.id ==> a == b
  }

  /** With ids that identify slots, every slot's entry lists exactly its own follow-ups, so no
      slot is paired with itself or with a slot on its own day. */
  lemma FollowUpEntryIsOwnWindow(slots: seq<AvailableSlot>, s: AvailableSlot, f: AvailableSlot)
    requires IdsIdentifySlots(slots) && s in slots
    ensures s.id in FollowUpAppointments(slots)
    ensures FollowUpAppointments(slots)[s.id] == FollowUpsOf(slots, s)
    ensures f in FollowUpAppointments(slots)[s.id] <==> f in slots && InFollowUpWindow(s, f)
    ensures f in FollowUpAppointments(slots)[s.id] ==> f != s && Day(f.date) != Day(s.date)
  {
  }
}
