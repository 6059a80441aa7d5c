/** Clinicians, their open slots, the role table of appointment types they may deliver, and the
    three checks a clinician record must pass when it is built. */
module ClinicianModel {
  import opened Results
  import opened Time
  import opened AppointmentModel
  import opened Grouping

  /** An open block of time a patient can book; it belongs to the clinician whose list holds it. */
  datatype AvailableSlot = AvailableSlot(id: string, date: Minute, length: int)

  datatype ClinicianType = Therapist | Psychologist

  datatype Clinician = Clinician(
    id: string,
    firstName: string,
    lastName: string,
    states: seq<UsState>,
    insurances: seq<InsurancePayer>,
    clinicianType: ClinicianType,
    appointments: seq<Appointment>,
    availableSlots: seq<AvailableSlot>,
    maxDailyAppointments: int,
    maxWeeklyAppointments: int)

  /** The appointment types a role may deliver: psychologists give the two assessment sessions,
      every other role the two therapy types. */
  function AllowedAppointmentTypes(role: ClinicianType): (types: seq<AppointmentType>)
    ensures |types| == 2
    ensures forall t :: t in types <==> (role.Psychologist? <==> (t.AssessmentSession1? || t.AssessmentSession2?))
  {
    if role.Psychologist? then [AssessmentSession1, AssessmentSession2]
    else [TherapyIntake, TherapySixtyMins]
  }

  // ---------------------------------------------------------------------------------------
  // Validator 1: every booked appointment names this clinician.

  function AppointmentsMustBeForClinician(c: Clinician): (r: Result<Clinician, ValidationError>)
    ensures r.Ok? <==> forall a :: a in c.appointments ==> a.clinicianId == c.id
    ensures r.Ok? ==> r.value == c
    ensures r.Err? ==> r.error == ForeignAppointment
  {
    if exists a | a in c.appointments :: a.clinicianId != c.id then Err(ForeignAppointment) else Ok(c)
  }

  // ---------------------------------------------------------------------------------------
  // Validator 2: daily and weekly caps, checked group by group with `itertools.groupby`.

  /** The daily grouping key as written: the uncalled bound method `scheduled_for.date`. Bound
      methods compare by the identity of their object, and every appointment holds its own
      datetime object, so the key tells every appointment apart; it is modelled by position. */
  function DailyKeysAsWritten(appts: seq<Appointment>): (keys: seq<int>)
    ensures |keys| == |appts|
    ensures forall i, j :: 0 <= i < j < |keys| ==> keys[i] != keys[j]
  {
    seq(|appts|, i => i)
  }

  /** The calendar day of each appointment (what `scheduled_for.date()` would have given). */
  function DayKeys(appts: seq<Appointment>): (keys: seq<int>)
    ensures |keys| == |appts|
    ensures forall i :: 0 <= i < |appts| ==> keys[i] == Day(appts[i].scheduledFor)
  {
    seq(|appts|, i requires 0 <= i < |appts| => Day(appts[i].scheduledFor))
  }

  /** The weekly grouping key: ISO week number paired with the CALENDAR year. The ISO calendar
      itself is a parameter (`isoWeek`, `year`). */
  function WeeklyKeys(appts: seq<Appointment>, isoWeek: Minute -> int, year: Minute -> int): (keys: seq<(int, int)>)
    ensures |keys| == |appts|
    ensures forall i :: 0 <= i < |appts| ==> keys[i] == (isoWeek(appts[i].scheduledFor), year(appts[i].scheduledFor))
  {
    seq(|appts|, i requires 0 <= i < |appts| => (isoWeek(appts[i].scheduledFor), year(appts[i].scheduledFor)))
  }

  /** No group of adjacent equal keys is larger than `limit`. */
  ghost predicate GroupsWithin<K>(keys: seq<K>, limit: int) {
    forall i :: 0 <= i < |Runs(keys)| ==> Runs(keys)[i].size <= limit
  }

  /** The daily pass, then the weekly pass, each stopping at its first oversized group. */
  function CheckCaps(c: Clinician, dailyKeys: seq<int>, weeklyKeys: seq<(int, int)>): (r: Result<Clinician, ValidationError>)
    ensures r.Ok? <==> GroupsWithin(dailyKeys, c.maxDailyAppointments) && GroupsWithin(weeklyKeys, c.maxWeeklyAppointments)
    ensures r.Ok? ==> r.value == c
    ensures r.Err? && r.error.TooManyDaily? ==> exists i :: 0 <= i < |Runs(dailyKeys)| && Runs(dailyKeys)[i].size == r.error.found > c.maxDailyAppointments
    ensures r.Err? && !GroupsWithin(dailyKeys, c.maxDailyAppointments) ==> r.error.TooManyDaily?
    ensures r.Err? && GroupsWithin(dailyKeys, c.maxDailyAppointments) ==> r.error.TooManyWeekly? && r.error.found > c.maxWeeklyAppointments
  {
    match FirstOversized(Runs(dailyKeys), c.maxDailyAppointments)
    case Some(group) =>
      var i :| 0 <= i < |Runs(dailyKeys)| && Runs(dailyKeys)[i] == group;
      Err(TooManyDaily(group.size))
    case None =>
      match FirstOversized(Runs(weeklyKeys), c.maxWeeklyAppointments)
      case Some(group) => Err(TooManyWeekly(group.size))
      case None => Ok(c)
  }

  /** `respect_max_appointments` as written. Because every daily group holds one appointment,
      the daily cap only rejects a clinician with appointments whose cap is below one. */
  function RespectMaxAppointments(c: Clinician, isoWeek: Minute -> int, year: Minute -> int): (r: Result<Clinician, ValidationError>)
    ensures r.Ok? <==>
      && (|c.appointments| == 0 || c.maxDailyAppointments >= 1)
      && GroupsWithin(WeeklyKeys(c.appointments, isoWeek, year), c.maxWeeklyAppointments)
    ensures r.Ok? ==> r.value == c
    ensures |c.appointments| > 0 && c.maxDailyAppointments < 1 ==> r == Err(TooManyDaily(1))
  {
    var dailyKeys := DailyKeysAsWritten(c.appointments);
    DistinctKeysGiveSingletonGroups(dailyKeys);
    assert |dailyKeys| > 0 ==> Runs(dailyKeys)[0].size == 1;
    CheckCaps(c, dailyKeys, WeeklyKeys(c.appointments, isoWeek, year))
  }

  /** `respect_max_appointments` with the daily key corrected to the calendar day. */
  function RespectMaxAppointmentsCorrected(c: Clinician, isoWeek: Minute -> int, year: Minute -> int): (r: Result<Clinician, ValidationError>)
    ensures r.Ok? <==>
      && GroupsWithin(DayKeys(c.appointments), c.maxDailyAppointments)
      && GroupsWithin(WeeklyKeys(c.appointments, isoWeek, year), c.maxWeeklyAppointments)
    ensures r.Ok? ==> r.value == c
  {
    CheckCaps(c, DayKeys(c.appointments), WeeklyKeys(c.appointments, isoWeek, year))
  }

  /** How many of `appts` fall on calendar day `d`. */
  function AppointmentsOnDay(appts: seq<Appointment>, d: int): nat {
    multiset(DayKeys(appts))[d]
  }

  ghost predicate ChronologicalAppointments(appts: seq<Appointment>) {
    forall i, j :: 0 <= i < j < |appts| ==> appts[i].scheduledFor <= appts[j].scheduledFor
  }

  /** With the corrected key and appointments in time order, the daily part of the check
      passes exactly when no calendar day holds more appointments than the daily cap. */
  lemma CorrectedDailyCapIsPerDayCount(c: Clinician)
    requires ChronologicalAppointments(c.appointments)
    ensures GroupsWithin(DayKeys(c.appointments), c.maxDailyAppointments)
        <==> forall a :: a in c.appointments ==> AppointmentsOnDay(c.appointments, Day(a.scheduledFor)) <= c.maxDailyAppointments
  {
    var keys := DayKeys(c.appointments);
    assert NonDecreasing(keys) by {
      forall i, j | 0 <= i < j < |keys| ensures keys[i] <= keys[j] {
        DayMonotone(c.appointments[i].scheduledFor, c.appointments[j].scheduledFor);
      }
    }
    SortedGroupsWithinLimit(keys, c.maxDailyAppointments);
    forall a | a in c.appointments ensures Day(a.scheduledFor) in keys {
      var i :| 0 <= i < |c.appointments| && c.appointments[i] == a;
      assert keys[i] == Day(a.scheduledFor);
    }
    forall x | x in keys ensures exists a :: a in c.appointments && Day(a.scheduledFor) == x {
      var i :| 0 <= i < |keys| && keys[i] == x;
      assert c.appointments[i] in c.appointments;
    }
  }

  /** Two appointments on the same calendar day pass the as-written check under a daily cap of
      one, while the corrected check refuses them. */
  lemma DailyCapNotEnforcedAsWritten(isoWeek: Minute -> int, year: Minute -> int)
    ensures
      var first := Appointment("a1", "p", "c", 600, TherapyIntake, Upcoming);
      var second := Appointment("a2", "p", "c", 660, TherapySixtyMins, Upcoming);
      var c := Clinician("c", "Ada", "Lovelace", [], [], Therapist, [first, second], [], 1, 2);
      && AppointmentsOnDay(c.appointments, 0) == 2 > c.maxDailyAppointments
      && RespectMaxAppointments(c, isoWeek, year) == Ok(c)
      && RespectMaxAppointmentsCorrected(c, isoWeek, year) == Err(TooManyDaily(2))
  {
    var first := Appointment("a1", "p", "c", 600, TherapyIntake, Upcoming);
    var second := Appointment("a2", "p", "c", 660, TherapySixtyMins, Upcoming);
    var c := Clinician("c", "Ada", "Lovelace", [], [], Therapist, [first, second], [], 1, 2);
    var keys := DayKeys(c.appointments);
    assert keys == [0, 0];
    assert multiset(keys)[0] == 2;
    assert Runs(keys[1..]) == [Run(0, 1)];
    assert Runs(keys) == [Run(0, 2)];
    var weekly := WeeklyKeys(c.appointments, isoWeek, year);
    assert forall i :: 0 <= i < |Runs(weekly)| ==> Runs(weekly)[i].size <= 2 by {
      RunsSizesBounded(weekly);
    }
  }

  /** No group is larger than the whole sequence. */
  lemma {:induction false} RunsSizesBounded<K>(keys: seq<K>)
    ensures forall i :: 0 <= i < |Runs(keys)| ==> Runs(keys)[i].size <= |keys|
    decreases |keys|
  {
    if |keys| > 0 {
      RunsSizesBounded(keys[1..]);
    }
  }

  // ---------------------------------------------------------------------------------------
  // Validator 3: appointment types match the clinician's role.

  function CorrectAppointmentType(c: Clinician): (r: Result<Clinician, ValidationError>)
    ensures r.Ok? <==> forall a :: a in c.appointments ==> a.appointmentType in AllowedAppointmentTypes(c.clinicianType)
    ensures r.Ok? ==> r.value == c
    ensures r.Err? ==> r.error == WrongAppointmentType
  {
    var expected := AllowedAppointmentTypes(c.clinicianType);
    if exists a | a in c.appointments :: a.appointmentType !in expected then Err(WrongAppointmentType) else Ok(c)
  }

  /** The three validators in declaration order; the first refusal wins. */
  function ValidateClinician(c: Clinician, isoWeek: Minute -> int, year: Minute -> int): (r: Result<Clinician, ValidationError>)
    ensures r.Ok? <==>
      && AppointmentsMustBeForClinician(c).Ok?
      && RespectMaxAppointments(c, isoWeek, year).Ok?
      && CorrectAppointmentType(c).Ok?
    ensures r.Ok? ==> r.value == c
    ensures |c.appointments| == 0 ==> r == Ok(c)
  {
    match AppointmentsMustBeForClinician(c)
    case Err(e) => Err(e)
    case Ok(c1) =>
      match RespectMaxAppointments(c1, isoWeek, year)
      case Err(e) => Err(e)
      case Ok(c2) => CorrectAppointmentType(c2)
  }
}
