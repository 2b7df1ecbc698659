/**
  * The attendance session schema: one opened attendance window of a course.
  * `isActive` defaults to true; course, lecture date, start, end and the
  * session identifier are required; the identifier is not declared unique.
  */
module SessionModel {
  import opened Base

  datatype Session = Session(
    course: Id,
    qrCode: Option<string>,
    lectureDate: Instant,
    startTime: Instant,
    endTime: Instant,
    isActive: bool,
    identifier: string)

  /**
    * The fields given to `new AttendanceSession({...})`. A date the source
    * builds from an unparsable time is an Invalid Date, which fails the Date
    * cast like an absent value, so it is None here too.
    */
  datatype SessionInput = SessionInput(
    course: Option<Id>,
    qrCode: Option<string>,
    lectureDate: Option<Instant>,
    startTime: Option<Instant>,
    endTime: Option<Instant>,
    isActive: Option<bool>,
    identifier: Option<string>)

  datatype SessionField = MissingSessionCourse | MissingSessionDate | MissingStart | MissingEnd | MissingIdentifier

  function SessionViolations(d: SessionInput): set<SessionField>
  {
    (if d.course.None? then {MissingSessionCourse} else {})
    + (if d.lectureDate.None? then {MissingSessionDate} else {})
    + (if d.startTime.None? then {MissingStart} else {})
    + (if d.endTime.None? then {MissingEnd} else {})
    + (if !Truthy(d.identifier) then {MissingIdentifier} else {})
  }

  /** Building and validating a session: the `isActive` default, then the required paths. */
  function CreateSession(d: SessionInput): (r: Result<Session, set<SessionField>>)
    ensures r.Ok? <==>
              d.course.Some? && d.lectureDate.Some? && d.startTime.Some? && d.endTime.Some?
              && Truthy(d.identifier)
    ensures r.Ok? ==>
              && r.value.course == d.course.value && r.value.qrCode == d.qrCode
              && r.value.lectureDate == d.lectureDate.value
              && r.value.startTime == d.startTime.value && r.value.endTime == d.endTime.value
              && r.value.isActive == (d.isActive.None? || d.isActive.value)
              && r.value.identifier == d.identifier.value
    ensures r.Err? ==> r.error != {} && (MissingStart in r.error <==> d.startTime.None?)
  {
    var errors := SessionViolations(d);
    if errors != {} then Err(errors)
    else
      Ok(Session(d.course.value, d.qrCode, d.lectureDate.value, d.startTime.value,
                 d.endTime.value, d.isActive.GetOr(true), d.identifier.value))
  }
}
