/** Patients and the check a patient record must pass when it is built. */
module PatientModel {
  import opened Results
  import opened AppointmentModel

  datatype Patient = Patient(
    id: string,
    firstName: string,
    lastName: string,
    state: UsState,
    insurance: InsurancePayer,
    appointments: seq<Appointment>)

  /** `appointments_for_self`: every appointment the patient owns names this patient. */
  function AppointmentsForSelf(p: Patient): (r: Result<Patient, ValidationError>)
    ensures r.Ok? <==> forall a :: a in p.appointments ==> a.patientId == p.id
    ensures r.Ok? ==> r.value == p
    ensures r.Err? ==> r.error == ForeignAppointment
    ensures |p.appointments| == 0 ==> r == Ok(p)
  {
    if exists a | a in p.appointments :: a.patientId != p.id then Err(ForeignAppointment) else Ok(p)
  }

  /** Acceptance depends only on which appointments are present: reordering or dropping
      appointments of an accepted patient keeps it accepted. */
  lemma AcceptanceSurvivesReorderAndRemoval(p: Patient, q: Patient)
    requires q.id == p.id
    requires forall a :: a in q.appointments ==> a in p.appointments
    requires AppointmentsForSelf(p).Ok?
    ensures AppointmentsForSelf(q) == Ok(q)
  {
  }

  /** Two patients with the same id whose appointment lists are permutations of each other are
      accepted or refused together. */
  lemma AcceptanceIgnoresOrder(p: Patient, q: Patient)
    requires q.id == p.id
    requires multiset(q.appointments) == multiset(p.appointments)
    ensures AppointmentsForSelf(q).Ok? <==> AppointmentsForSelf(p).Ok?
  {
    forall a | a in q.appointments ensures a in p.appointments {
      assert a in multiset(q.appointments);
    }
    forall a | a in p.appointments ensures a in q.appointments {
      assert a in multiset(p.appointments);
    }
  }
}
