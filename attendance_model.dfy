/**
  * The attendance record schema: one student's outcome for one session.
  * Mongoose applies the defaults when a record is built (status `pending`,
  * `markedAt` null) and checks the required paths and the status enum when
  * it is saved.
  */
module AttendanceModel {
  import opened Base

  /** The `_id` of an attendance session: its position in the sessions collection. */
  type SessionKey = nat

  datatype Status = Pending | Present | Absent | Late

  /** The string stored for each status. */
  function StatusName(s: Status): string {
    match s
    case Pending => "pending"
    case Present => "present"
    case Absent => "absent"
    case Late => "late"
  }

  /** The enum validator: a status string is accepted iff it names one of the four statuses. */
  function ParseStatus(text: string): (r: Option<Status>)
    ensures r.Some? ==> StatusName(r.value) == text
    ensures r.None? ==> forall s: Status :: StatusName(s) != text
  {
    if text == "pending" then Some(Pending)
    else if text == "present" then Some(Present)
    else if text == "absent" then Some(Absent)
    else if text == "late" then Some(Late)
    else None
  }

  /** The four status names are distinct, so parsing a name gives back its status. */
  lemma StatusNameRoundTrip(s: Status)
    ensures ParseStatus(StatusName(s)) == Some(s)
  {
  }

  datatype Record = Record(
    course: Id,
    student: Id,
    session: SessionKey,
    lectureDate: Instant,
    status: Status,
    markedAt: Option<Instant>,
    teacher: Option<Id>)

  /** The fields given to `new Attendance({...})`; None is an absent field. */
  datatype RecordInput = RecordInput(
    course: Option<Id>,
    student: Option<Id>,
    session: Option<SessionKey>,
    lectureDate: Option<Instant>,
    status: Option<string>,
    markedAt: Option<Instant>,
    teacher: Option<Id>)

  datatype RecordField = MissingCourse | MissingStudent | MissingSession | MissingLectureDate | BadStatus

  /** The paths whose validators fail for an input: the four required ones and the enum. */
  function RecordViolations(d: RecordInput): set<RecordField>
  {
    (if d.course.None? then {MissingCourse} else {})
    + (if d.student.None? then {MissingStudent} else {})
    + (if d.session.None? then {MissingSession} else {})
    + (if d.lectureDate.None? then {MissingLectureDate} else {})
    + (if d.status.Some? && ParseStatus(d.status.value).None? then {BadStatus} else {})
  }

  /** Building and validating a record: defaults first, then the schema's validators. */
  function CreateRecord(d: RecordInput): (r: Result<Record, set<RecordField>>)
    ensures r.Ok? <==>
              d.course.Some? && d.student.Some? && d.session.Some? && d.lectureDate.Some?
              && (d.status.None? || d.status.value in {"pending", "present", "absent", "late"})
    ensures r.Ok? ==>
              && r.value.course == d.course.value && r.value.student == d.student.value
              && r.value.session == d.session.value && r.value.lectureDate == d.lectureDate.value
              && (d.status.None? ==> r.value.status == Pending)
              && (d.status.Some? ==> StatusName(r.value.status) == d.status.value)
              && r.value.markedAt == d.markedAt && r.value.teacher == d.teacher
    ensures r.Err? ==> r.error != {} && (MissingSession in r.error <==> d.session.None?)
  {
    var errors := RecordViolations(d);
    if errors != {} then Err(errors)
    else
      Ok(Record(d.course.value, d.student.value, d.session.value, d.lectureDate.value,
                if d.status.Some? then ParseStatus(d.status.value).value else Pending,
                d.markedAt, d.teacher))
  }
}
