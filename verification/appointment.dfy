/** Record shapes shared by clinicians and patients: booked appointments, insurance payers,
    US states, and the reasons a record that owns appointments can be refused. */
module AppointmentModel {
  import opened Time

  datatype AppointmentType =
    | AssessmentSession1
    | AssessmentSession2
    | TherapyIntake
    | TherapySixtyMins

  /** Informational only: nothing in the availability pipeline reads it. */
  datatype AppointmentStatus =
    | Upcoming
    | Occurred
    | NoShow
    | Rescheduled
    | Cancelled
    | LateCancellation

  /** A booked meeting between a patient and a clinician. */
  datatype Appointment = Appointment(
    id: string,
    patientId: string,
    clinicianId: string,
    scheduledFor: Minute,
    appointmentType: AppointmentType,
    status: AppointmentStatus)

  datatype InsurancePayer = Aetna | Bcbs | Cigna | United

  /** A US state, identified by its code; the enumeration of states is not part of this model. */
  datatype UsState = UsState(code: string)

  /** Why a record's own validator refused it (the source raises a `ValueError`). */
  datatype ValidationError =
    | ForeignAppointment
    | TooManyDaily(found: nat)
    | TooManyWeekly(found: nat)
    | WrongAppointmentType
}
