/**
 * The Registration document: one student's claim on one event.
 *
 * The schema requires `studentId` and `eventId` and defaults `registrationDate`
 * to the moment of creation. It declares no unique index on the pair and no
 * capacity constraint: those rules live only in the handlers that insert.
 */
module RegistrationModel {
  import opened Wrappers

  /** Document ids (Mongo ObjectIds), compared by equality only. */
  type Id = nat

  /** A point in time, in milliseconds. */
  type Timestamp = int

  datatype Registration = Registration(
    id: Id,
    studentId: Id,
    eventId: Id,
    registrationDate: Timestamp)

  /** The validation errors the schema can raise. */
  datatype SchemaError = StudentIdRequired | EventIdRequired

  datatype Validated =
    | Ok(registration: Registration)
    | Invalid(errors: set<SchemaError>)

  /**
   * Building and validating a document from the supplied fields: each missing
   * required field is reported (validation collects every error), and a missing
   * date takes the creation time `now`.
   */
  function NewRegistration(id: Id, studentId: Option<Id>, eventId: Option<Id>,
                           registrationDate: Option<Timestamp>, now: Timestamp): (v: Validated)
    ensures v.Invalid? <==> studentId.None? || eventId.None?
    ensures v.Invalid? ==> (StudentIdRequired in v.errors <==> studentId.None?)
    ensures v.Invalid? ==> (EventIdRequired in v.errors <==> eventId.None?)
    ensures v.Ok? ==> (v.registration.id == id
                          && v.registration.studentId == studentId.value
                          && v.registration.eventId == eventId.value)
    ensures v.Ok? && registrationDate.None? ==> v.registration.registrationDate == now
    ensures v.Ok? && registrationDate.Some? ==> v.registration.registrationDate == registrationDate.value
  {
    var errors := (if studentId.None? then {StudentIdRequired} else {})
                + (if eventId.None? then {EventIdRequired} else {});
    if errors != {} then Invalid(errors)
    else
      var date := match registrationDate
        case Some(d) => d
        case None => now;
      Ok(Registration(id, studentId.value, eventId.value, date))
  }
}
