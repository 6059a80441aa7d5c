# Appointment availability: a Dafny model

This project models the availability pipeline of a small appointment-matching service. A
patient asks for an appointment category, ASSESSMENT or THERAPY. The service does five things:

- It keeps the clinicians who may see the patient and whose role delivers that category.
- It thins each clinician's open slots with a greedy pass. The pass enforces a minimum gap between
  offered slots, a per-day cap and a rolling seven-day cap. Both caps count booked appointments
  and slots already kept.
- For assessments, it pairs each slot with follow-up slots one to seven days later.
- It flattens everything into response rows, sorted by (start, last name, first name, clinician
  id).
- A separate pass drops closely spaced rows of the same clinician from a pooled, sorted list.

The model also covers the checks a clinician or patient record must pass when it is built, and
the table from category to appointment types.

Modelling choices:

- **Time.** A timestamp is a natural number of minutes. The calendar day of `t` is `t / 1440`
  (`Time.Day`).
- **Parameters for code this model does not contain.** The patient/clinician compatibility
  predicate is the parameter `compatible`, because `is_patient_compatible` is not part of this
  model. The ISO week number and the calendar year of a timestamp are the parameters `isoWeek`
  and `year`.
- **Loading and sorting.** Loading from the database is replaced by passing the records in.
  Python's stable `sorted` is a stable insertion sort (`Sorting.InsertionSort`).
- **Dicts.** A dict keyed by id is modelled literally. For plain maps, a later write replaces an
  earlier one. `clinician_availability` is an ordered dict (`OrderedDicts`): keys keep their
  first-insertion order and hold the last value written. The end-to-end lemmas about
  `App.get_available_slots` assume that clinician ids are unique and that slot ids identify
  slots. The source relies on both without checking them.
- **Where the documentation and the code disagree, the model follows the code:**
  - The comment at `src/controllers/clinician_controller.py:70` speaks of a calendar week. The
    loop counts a trailing window of seven days.
  - The record checks use `itertools.groupby`, which groups only adjacent equal keys.
  - The daily check groups by an uncalled bound method (see Findings).
  - The weekly check groups by (ISO week number, calendar year).

  So these checks do not bound appointments per day / per week, which the field docs of
  `max_daily_appointments` / `max_weekly_appointments` (`src/models/clinician.py:71-75`) promise.
  `ClinicianModel.CorrectedDailyCapIsPerDayCount` shows that the corrected daily key
  does, when appointments are in time order.

Slot thinning has two forms:

- a functional reference, `ClinicianController.Thin` / `ThinFrom`, which derives the loads from
  the kept list;
- the source's loop with its `Counter` maps, `ClinicianController.FilterAvailabilitySlots`.

The method is proved to return exactly `Thin`.

## Model

| member | source | states |
|---|---|---|
| Requests.Types | src/models/requests.py:10-22 | each category stands for exactly two different appointment types |
| Requests.TypesPartitionAppointmentTypes | src/models/requests.py:12-22 | every appointment type belongs to exactly one category; ASSESSMENT holds exactly the two assessment sessions |
| ClinicianModel.AllowedAppointmentTypes | src/models/clinician.py:130-139 | a role allows two types; a type is allowed exactly when "psychologist" and "assessment session" agree |
| ClinicianModel.AppointmentsMustBeForClinician | src/models/clinician.py:91-100 | accepts iff every booked appointment names the clinician; on acceptance returns the clinician unchanged, otherwise the foreign-appointment error |
| ClinicianModel.DailyKeysAsWritten | src/models/clinician.py:104-106 | the daily grouping key as written tells every appointment apart |
| Grouping.Runs | src/models/clinician.py:104-107 | `groupby` groups: non-empty runs, neighbouring runs have different keys, the first run starts with the first key, and expanding the runs gives the keys back |
| Grouping.FirstOversized | src/models/clinician.py:107-111 | finds a group over the cap exactly when one exists; the group returned is one of the runs and is over the cap |
| Grouping.DistinctKeysGiveSingletonGroups | src/models/clinician.py:104-107 | keys that never repeat give one group per element, each of size one |
| Grouping.SortedGroupsWithinLimit | src/models/clinician.py:104-111 | for sorted keys, "no group over the cap" is the same as "no key occurs more often than the cap" |
| ClinicianModel.CheckCaps | src/models/clinician.py:102-126 | accepts iff all daily groups and all weekly groups are within their caps; reports a daily group first, with its real size |
| ClinicianModel.RespectMaxAppointments | src/models/clinician.py:102-126 | as written: accepts iff (no appointments or daily cap at least one) and every adjacent (ISO week, year) group is within the weekly cap |
| ClinicianModel.WeeklyKeys | src/models/clinician.py:113-118 | one key per appointment, in order: (ISO week number, calendar year) of its start |
| ClinicianModel.RespectMaxAppointmentsCorrected | src/models/clinician.py:102-126 | with the calendar-day key: accepts iff the daily groups and weekly groups are within their caps |
| ClinicianModel.CorrectedDailyCapIsPerDayCount | src/models/clinician.py:104-111 | for appointments in time order, the corrected daily check passes iff no calendar day holds more appointments than the cap |
| ClinicianModel.DailyCapNotEnforcedAsWritten | src/models/clinician.py:104-111 | two appointments on one day under a daily cap of one pass as written and are refused with the corrected key |
| ClinicianModel.CorrectAppointmentType | src/models/clinician.py:128-149 | accepts iff every appointment's type is one the role allows; returns the clinician unchanged on acceptance |
| ClinicianModel.ValidateClinician | src/models/clinician.py:91-149 | accepts iff all three checks accept; returns the clinician unchanged; a clinician with no appointments always passes |
| PatientModel.AppointmentsForSelf | src/models/patient.py:47-54 | accepts iff every appointment names the patient; returns the patient unchanged; no appointments always passes |
| PatientModel.AcceptanceSurvivesReorderAndRemoval | src/models/patient.py:49 | dropping or reordering appointments of an accepted patient keeps it accepted |
| PatientModel.AcceptanceIgnoresOrder | src/models/patient.py:49 | permuting the appointments does not change acceptance |
| ClinicianController.SharesTypeIffRoleMatches | src/controllers/clinician_controller.py:30-33 | sharing a type with the category holds iff psychologist corresponds to ASSESSMENT |
| ClinicianController.SharesAppointmentType | src/controllers/clinician_controller.py:30-33 | definition without a contract: some type of the category is allowed for the role; ClinicianController.SharesTypeIffRoleMatches reduces it to a role test |
| ClinicianController.EachCategoryIsOneRole | src/models/requests.py:12-22 | each category's list equals exactly one role's list |
| ClinicianController.CompatibleClinicians | src/controllers/clinician_controller.py:19-36 | in input order, exactly the compatible clinicians sharing a type with the category, each kept as often as it occurs |
| ClinicianController.ThinFrom | src/controllers/clinician_controller.py:53-83 | the pass only appends to what it has kept, and what it appends is a subsequence of its input |
| ClinicianController.SortByDate | src/controllers/clinician_controller.py:54 | slots sorted by start, as a permutation of the input |
| ClinicianController.Thin | src/controllers/clinician_controller.py:38-85 | kept slots: a subsequence of the start-sorted slots, each one of the clinician's slots, sorted by start |
| ClinicianController.ThinIsSpacedWithinCaps | src/controllers/clinician_controller.py:38-85 | consecutive kept slots are at least `duration` apart, and every kept slot's day and trailing seven days are within the caps, counting bookings and kept slots |
| ClinicianController.AdmitPreservesInvariants | src/controllers/clinician_controller.py:56-83 | appending a slot that passes the three tests keeps the kept list sorted, spaced and within both caps |
| ClinicianController.ThinKeepsInvariants | src/controllers/clinician_controller.py:54-83 | the pass started from a valid kept list ends with a valid one |
| ClinicianController.DroppedOnlyForAReason | src/controllers/clinician_controller.py:54-80 | a slot is left out iff it is too close to the last kept slot, its day is full, or its trailing week is full |
| ClinicianController.RethinReproduces | src/controllers/clinician_controller.py:54-83 | running the pass over its own newly kept slots reproduces them |
| ClinicianController.ThinIsIdempotent | src/controllers/clinician_controller.py:54-83 | thinning the thinned slots again changes nothing |
| ClinicianController.CountAppointmentDays | src/controllers/clinician_controller.py:45-47 | the counter gives, for every day, the number of booked appointments on that day |
| ClinicianController.CommittedForWeek | src/controllers/clinician_controller.py:72-77 | the seven-day loop sums bookings and kept slots over the slot's day and the six days before |
| ClinicianController.FilterAvailabilitySlots | src/controllers/clinician_controller.py:38-85 | the loop with its counters returns exactly the reference thinning |
| ClinicianController.FollowUpsOf | src/controllers/clinician_controller.py:104-108 | in slot order, exactly the slots one to seven calendar days after the given slot, each as often as it occurs among the slots; never the slot itself |
| ClinicianController.FollowUpMapOver | src/controllers/clinician_controller.py:97-108 | one key per visited slot id; each value is the follow-up list of a visited slot with that id |
| ClinicianController.FollowUpAppointments | src/controllers/clinician_controller.py:87-110 | one key per slot id; each value is the follow-up list of a slot holding that id |
| ClinicianController.FollowUpEntryIsOwnWindow | src/controllers/clinician_controller.py:99-108 | when ids identify slots, a slot's entry holds exactly the slots one to seven calendar days later, never itself nor a same-day slot |
| Responses.Singles | src/models/responses.py:44-53 | one row per slot, in slot order, without follow-up, each naming the clinician |
| Responses.RowsForSlot | src/models/responses.py:58-67 | one row per listed follow-up, in list order: row `i` pairs the slot with follow-up `i` |
| Responses.PairedRows | src/models/responses.py:55-71 | as many rows as the sum of the follow-up list lengths; a row appears iff it pairs a slot with a follow-up listed for that slot's id |
| Responses.FromClinician | src/models/responses.py:32-71 | rows name the clinician; without a map (None or empty), one single row per slot in order; otherwise the paired rows, with their count |
| Responses.PairedRowsOfOneSlot | src/models/responses.py:55-71 | the paired rows of one slot are its rows, one per follow-up listed for its id, in list order |
| Responses.PairedRowsAppend | src/models/responses.py:55-71 | pairing goes slot by slot: the rows for `s + t` are the rows for `s` followed by the rows for `t` |
| Responses.FromClinicianPairsSlotBySlot | src/models/responses.py:55-71 | with a non-empty map, splitting the clinician's slots splits its rows the same way, so rows come in slot order |
| Responses.SingleRowsAreRowsForSlots | src/models/responses.py:44-53 | without follow-ups, a row is produced iff it is the clinician's single row for one of its slots |
| Responses.KeyLessIsStrictTotalOrder | src/models/responses.py:73-83 | comparing sort keys lexicographically is irreflexive, transitive and total on distinct keys |
| Responses.RowLeIsTotalPreorder | src/models/responses.py:73-83 | ordering rows by sort key is a total preorder |
| Responses.SortResponses | src/main.py:54-59 | the rows sorted by sort key, as a permutation of the input |
| Responses.SortFields | src/models/responses.py:73-83 | definition without a contract: the key (start, last name, first name, clinician id); Responses.KeyLessIsStrictTotalOrder shows its tuple order is a strict total order and Responses.SortResponses sorts by it |
| Sorting.InsertionSort | src/main.py:54-59 | for a total preorder, the output is sorted and a permutation of the input |
| Sorting.SortSortedIsIdentity | src/controllers/clinician_controller.py:54 | sorting an already sorted list returns it unchanged |
| PatientController.EligibleFor | src/controllers/patient_controller.py:32-45 | in input order, the compatible clinicians, restricted to those sharing a type when a category is given, each as often as it occurs in the input |
| PatientController.SinglesOf | src/controllers/patient_controller.py:47-49 | one single row per open slot of each clinician; a row appears iff it is some clinician's single row |
| PatientController.PairWith | src/controllers/patient_controller.py:74-77 | one row per candidate, pairing the row with that candidate's slot |
| PatientController.TimestampFollowUp | src/controllers/patient_controller.py:62-71 | definition without a contract: same clinician id, start between one and seven days (as timestamps) after; PatientController.AssessmentRowsArePairs and AssessmentRowIsForEligiblePsychologist state what it admits |
| PatientController.WithFollowUp | src/controllers/patient_controller.py:74 | definition without a contract: the row with its follow-up slot set (the called method is missing, see "## Left out"); used by PatientController.AssessmentRowsArePairs |
| PatientController.PairAll | src/controllers/patient_controller.py:61-77 | one row per (row, timestamp follow-up) pair, counted with repetition; a row appears iff it pairs some row with a same-clinician row starting one to seven days (as timestamps) later |
| PatientController.GetAvailableSlots | src/controllers/patient_controller.py:21-84 | sorted by sort key, and a permutation of the singles (other categories) or of the timestamp pairs (ASSESSMENT) |
| PatientController.OtherCategoriesGiveSingles | src/controllers/patient_controller.py:47-56 | outside ASSESSMENT: one row per open slot of each eligible clinician, each row such a single |
| PatientController.AssessmentRowsArePairs | src/controllers/patient_controller.py:61-84 | for ASSESSMENT a row is returned iff it pairs two eligible singles of the same clinician id, the second one to seven days later |
| PatientController.AssessmentRowIsForEligiblePsychologist | src/controllers/patient_controller.py:37-77 | every assessment row has a follow-up one to seven days later and a slot of an eligible psychologist |
| PatientController.DedupFrom | src/controllers/patient_controller.py:103-116 | the loop keeps an order-preserving subsequence of its input |
| PatientController.OptimizeAppointmentSlots | src/controllers/patient_controller.py:86-118 | empty input gives []; the output is an order-preserving subsequence of the input |
| PatientController.DedupIsPerClinician | src/controllers/patient_controller.py:103-116 | a clinician's kept rows depend only on that clinician's rows and reference time |
| PatientController.DedupChains | src/controllers/patient_controller.py:112-116 | every kept row is at least `duration` after the previous reference and becomes the new one |
| PatientController.OptimizeDropsFirstPerClinician | src/controllers/patient_controller.py:105-116 | a clinician's first row is never kept; its kept rows come from its later rows and chain `duration` apart from the first |
| PatientController.LoneRowIsDropped | src/controllers/patient_controller.py:109-110 | a single row is dropped as written and kept by the correction |
| PatientController.DedupKeepingFirstFrom | src/controllers/patient_controller.py:103-116 | corrected loop: an order-preserving subsequence of its input |
| PatientController.OptimizeKeepingFirst | src/controllers/patient_controller.py:86-118 | corrected pass: [] on empty input, a subsequence of it, and it starts with the first row |
| PatientController.KeepingFirstIsPerClinician | src/controllers/patient_controller.py:103-116 | corrected pass: a clinician's kept rows depend only on that clinician's rows |
| PatientController.KeepingFirstChains | src/controllers/patient_controller.py:112-116 | corrected pass: kept rows chain at least `duration` apart from the reference |
| PatientController.KeepingFirstKeepsFirstPerClinician | src/controllers/patient_controller.py:105-116 | corrected pass: each clinician's first row is kept and later kept rows are at least `duration` apart |
| PatientController.DedupStep | src/controllers/patient_controller.py:103-116 | one loop step: a clinician's first row only sets its reference; a later row is kept, and becomes the reference, iff it starts at least `duration` after the reference, and is skipped otherwise |
| PatientController.KeepingFirstStep | src/controllers/patient_controller.py:103-116 | corrected step: a row is kept iff its clinician has no reference yet or it starts at least `duration` after the reference |
| PatientController.TwoRowsOfOneClinician | src/controllers/patient_controller.py:103-116 | two rows of one clinician: as written the result is the second row iff it is `duration` after the first, else nothing; corrected, the first row plus the second under the same condition |
| PatientController.GreedyFrom | src/controllers/patient_controller.py:103-116 | greedy selection for one clinician: a subsequence of its rows chaining at least `duration` apart from the reference |
| PatientController.GreedyIsLongest | src/controllers/patient_controller.py:91-93 | on sorted rows, no selection chaining from the reference is longer than the greedy one |
| PatientController.DedupIsGreedy | src/controllers/patient_controller.py:103-116 | for one clinician's rows with a reference, both loops are exactly the greedy selection |
| PatientController.PassesAreGreedyPerClinician | src/controllers/patient_controller.py:86-118 | per clinician, the pass as written is the greedy selection from its first row over its later rows; the correction is that first row followed by the same selection |
| PatientController.CorrectionKeepsOneMorePerClinician | src/controllers/patient_controller.py:109-116 | per clinician, the corrected result is the clinician's first row followed by the as-written result |
| PatientController.CorrectedPassKeepsMost | src/controllers/patient_controller.py:91-93 | on sorted input, the corrected pass keeps for each clinician at least as many rows as any selection of that clinician's rows spaced `duration` apart |
| OrderedDicts.Put | src/main.py:44-50 | writing a key: the key holds the new value, other keys keep theirs, and existing keys keep their order |
| OrderedDicts.FromPairs | src/main.py:44-50 | the dict comprehension: its keys are the keys written, and each holds the value written last under it |
| OrderedDicts.FlattenedConsistentPairs | src/main.py:52 | when equal keys carry equal values, chaining the values gives exactly the elements written |
| App.FollowUpDict | src/main.py:37-42 | one key per clinician id, each holding the follow-up map of a clinician with that id |
| App.FollowUpDictHoldsEveryClinician | src/main.py:37-42 | with unique ids, each clinician's entry is its own follow-up map |
| App.AvailabilityDict | src/main.py:44-50 | keys are the clinician ids; each holds the rows of the last clinician with that id |
| App.ThinAll | src/main.py:32-35 | clinician `i` of the result is clinician `i` of the input with its slots replaced by the thinned ones |
| App.Thinned | src/main.py:27-35 | position by position, the eligible clinicians in input order, each with thinned slots for the category's duration |
| App.Duration | src/main.py:31 | definition without a contract: 90 minutes for ASSESSMENT, 60 otherwise; pinned down by App.TherapyRowsAreThinnedSingles (60) and App.AssessmentRowsAreWeekPairs (90) |
| App.Availability | src/main.py:37-50 | the dict of rows per thinned clinician id, with follow-up maps only for ASSESSMENT; a valid ordered dict; its contents are given by App.FlattenedDictIsAllRows and App.ResultIsRowsOfThinnedClinicians |
| App.GetAvailableSlots | src/main.py:18-59 | sorted by sort key; a permutation of the rows of the flattened dict |
| App.FlattenedDictIsAllRows | src/main.py:44-52 | with unique ids, the flattened dict holds exactly the rows some clinician contributes |
| App.ResultIsRowsOfThinnedClinicians | src/main.py:26-59 | with unique ids, a row is returned iff some thinned eligible clinician contributes it |
| App.TherapyRowsAreThinnedSingles | src/main.py:31-59 | THERAPY: a row is returned iff it is an eligible clinician's single row for a slot kept when thinning for 60 minutes |
| App.AssessmentRowsOfClinician | src/main.py:38-50 | with its own follow-up map, a clinician's rows pair each slot with each of its slots one to seven calendar days later |
| App.PairRowsAreWindowPairs | src/models/responses.py:55-71 | a paired row of a clinician's own follow-up map is a pair of its slots one to seven calendar days apart |
| App.ThinnedPairsOf | src/main.py:38-50 | the thinned clinician's assessment rows are exactly its pairs of thinned slots |
| App.AssessmentRowsAreWeekPairs | src/main.py:31-59 | ASSESSMENT: a row is returned iff it pairs two slots an eligible clinician keeps when thinning for 90 minutes, one to seven calendar days apart |

## Left out

- Loading patients and clinicians from JSON files, and the command-line interface with its
  formatting: input/output only. Records are passed in as sequences.
- `is_patient_compatible` and `allowed_appointment_types` on the clinician are not part of this
  model. Compatibility is a parameter; the role table is `ClinicianModel.AllowedAppointmentTypes`.
- Calendar and time-zone arithmetic: days are `minutes / 1440`, and the ISO week and calendar
  year are parameters. No lemma exhibits the year-boundary mismatch between ISO week and
  calendar year in the weekly key.
- pydantic type coercion, `validate_assignment`, generated ids (`uuid4`), the creation and update
  timestamps, `__str__`/`__repr__`, and the text of error messages. The errors are modelled by
  kind, with the group size the message reports.
- `AppointmentStatus`, `InsurancePayer` and `UsState` are kept as data only; no operation reads
  them.
- `AvailabilityResponse.with_follow_up`: `src/controllers/patient_controller.py:74` calls it, but
  `src/models/responses.py` does not define it, so as written any ASSESSMENT request with at least
  one qualifying pair raises `AttributeError`. The model does not model that error: it takes the
  evident intent, the same row with its follow-up slot set (`PatientController.WithFollowUp`).
- Sorting.InsertionSort: stability (equal keys keep their input order) is implemented but not
  stated. The contracts state "sorted permutation".
- App.AssessmentRowsAreWeekPairs and the other App lemmas: they assume unique clinician ids and
  slot ids that identify slots. Without these assumptions only App.AvailabilityDict's
  last-write-wins description holds, because a repeated id silently replaces an earlier entry.
- App.TherapyRowsAreThinnedSingles, App.AssessmentRowsAreWeekPairs: they state membership both ways but not row counts, because with unique ids each row arises from a single clinician and slot and the count adds nothing the membership does not already fix; `App.GetAvailableSlots` states the permutation.

## Findings

| source | as written | input that shows it | evidently intended | confidence | as-written member | corrected member |
|---|---|---|---|---|---|---|
| src/models/clinician.py:104-106 | the daily `groupby` key is the bound method `scheduled_for.date`, never called; bound methods of different datetime objects compare unequal, so every group holds one appointment and the daily cap only rejects caps below one | a clinician with two appointments at 10:00 and 11:00 on the same day, daily cap 1, weekly cap 2, is accepted | group by `scheduled_for.date()`, so the two appointments form one group of 2 and the record is refused | medium; not executed | ClinicianModel.DailyCapNotEnforcedAsWritten | ClinicianModel.RespectMaxAppointmentsCorrected |
| src/controllers/patient_controller.py:109-110 | the first row seen for a clinician only sets the reference time and is never kept | a list with one row returns [] | keep the first row of each clinician and measure later rows from it | medium; not executed | PatientController.LoneRowIsDropped | PatientController.OptimizeKeepingFirst |
