/** The appointment categories a patient can ask for, and the appointment types each covers. */
module Requests {
  import opened AppointmentModel

  datatype AppointmentCategory = Assessment | Therapy

  /** The two appointment types a category stands for. */
  function Types(category: AppointmentCategory): (types: seq<AppointmentType>)
    ensures |types| == 2 && types[0] != types[1]
  {
    match category
    case Assessment => [AssessmentSession1, AssessmentSession2]
    case Therapy => [TherapyIntake, TherapySixtyMins]
  }

  /** Every appointment type belongs to exactly one category: the two lists are disjoint and
      together cover all four types. */
  lemma TypesPartitionAppointmentTypes(t: AppointmentType)
    ensures t in Types(Assessment) <==> t !in Types(Therapy)
    ensures t in Types(Assessment) <==> t.AssessmentSession1? || t.AssessmentSession2?
  {
  }
}
