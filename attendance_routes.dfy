/**
  * The handlers of the attendance router on the shared store: counting a
  * teacher's courses, the teacher and student summaries, opening a session,
  * the timers and the global job, a student's view of one course, and
  * marking present. The course collection is read as the `Course` model
  * would answer; the router itself never imports that model.
  */
module AttendanceRoutes {
  import opened Base
  import opened CourseModel
  import opened SessionModel
  import opened AttendanceModel
  import opened Schedule
  import opened Lifecycle
  import opened Summaries
  import opened Database

  /** `GET /total-courses`: `Course.countDocuments({ teacher })`. */
  method TotalCourses(db: Db, teacherId: Id) returns (totalCourses: nat)
    ensures totalCourses == |CoursesWhere(db.courses, ByTeacher(teacherId))|
    ensures totalCourses <= |db.courses|
    ensures totalCourses == 0 <==> forall c :: c in db.courses ==> c.teacher != teacherId
  {
    var mine := CoursesWhere(db.courses, ByTeacher(teacherId));
    NothingWhere(db.courses, ByTeacher(teacherId));
    totalCourses := |mine|;
  }

  /**
    * `GET /attendance-summary`: over the caller's courses, the present and
    * the absent records of each, added up. With course ids unique (they
    * are document ids), that is every present and every absent record of
    * a course the caller teaches, whoever took the register.
    */
  method TeacherSummary(db: Db, teacherId: Id) returns (totalPresent: nat, totalAbsent: nat)
    ensures var mine := CoursesWhere(db.courses, ByTeacher(teacherId));
            && totalPresent == OverCourses(mine, db.records, None, Some(Present))
            && totalAbsent == OverCourses(mine, db.records, None, Some(Absent))
    ensures IdsUnique(db.courses) ==>
              var taught := IdsWhere(db.courses, ByTeacher(teacherId));
              && totalPresent == Count(db.records, taught, None, Some(Present))
              && totalAbsent == Count(db.records, taught, None, Some(Absent))
  {
    var courses := CoursesWhere(db.courses, ByTeacher(teacherId));
    totalPresent, totalAbsent := 0, 0;
    var i := 0;
    while i < |courses|
      invariant i <= |courses|
      invariant totalPresent == OverCourses(courses[..i], db.records, None, Some(Present))
      invariant totalAbsent == OverCourses(courses[..i], db.records, None, Some(Absent))
    {
      var presentCount := Count(db.records, {courses[i].id}, None, Some(Present));
      var absentCount := Count(db.records, {courses[i].id}, None, Some(Absent));
      totalPresent := totalPresent + presentCount;
      totalAbsent := totalAbsent + absentCount;
      OverCoursesStep(courses, i, db.records, None, Some(Present));
      OverCoursesStep(courses, i, db.records, None, Some(Absent));
      i := i + 1;
    }
    assert courses[..i] == courses;
    if IdsUnique(db.courses) {
      OverMatching(db.courses, ByTeacher(teacherId), db.records, None, Some(Present));
      OverMatching(db.courses, ByTeacher(teacherId), db.records, None, Some(Absent));
    }
  }

  datatype StudentSummaryOutcome =
    | NoCoursesForStudent                                      // 404
    | SummaryFailed                                            // 500, `totalLate` is not declared
    | StudentTotals(totalClasses: nat, totalPresent: nat, totalAbsent: nat)  // 200

  /**
    * The `forEach` over one course's records of a student: present and
    * absent counted, and `late` raised by the first late one, where
    * `totalLate++` throws.
    */
  method TallyEntries(attendanceData: seq<Record>, ids: set<Id>, who: Option<Id>)
    returns (present: nat, absent: nat, late: bool)
    requires forall x :: x in attendanceData ==> x.course in ids && (who.None? || x.student == who.value)
    ensures late <==> Count(attendanceData, ids, who, Some(Late)) > 0
    ensures !late ==> present == Count(attendanceData, ids, who, Some(Present))
                      && absent == Count(attendanceData, ids, who, Some(Absent))
  {
    present, absent := 0, 0;
    var j := 0;
    while j < |attendanceData|
      invariant j <= |attendanceData|
      invariant present == Count(attendanceData[..j], ids, who, Some(Present))
      invariant absent == Count(attendanceData[..j], ids, who, Some(Absent))
      invariant Count(attendanceData[..j], ids, who, Some(Late)) == 0
    {
      var entry := attendanceData[j];
      assert entry in attendanceData;
      assert attendanceData[..j + 1][..j] == attendanceData[..j];
      if entry.status == Present {
        present := present + 1;
      } else if entry.status == Absent {
        absent := absent + 1;
      } else if entry.status == Late {
        CountPrefix(attendanceData, j + 1, ids, who, Some(Late));
        return present, absent, true;
      }
      j := j + 1;
    }
    assert attendanceData[..j] == attendanceData;
    late := false;
  }

  /**
    * `GET /attendance-summary/student`: 404 without a course; otherwise
    * the caller's records of each course are counted one by one, and a
    * late one stops the handler at `totalLate++`.
    */
  method StudentSummary(db: Db, studentId: Id) returns (r: StudentSummaryOutcome)
    ensures r == NoCoursesForStudent <==> forall c :: c in db.courses ==> studentId !in c.students
    ensures var mine := CoursesWhere(db.courses, ByStudent(studentId));
            r == SummaryFailed <==>
              |mine| > 0 && OverCourses(mine, db.records, Some(studentId), Some(Late)) > 0
    ensures var mine := CoursesWhere(db.courses, ByStudent(studentId));
            r.StudentTotals? ==>
              && r.totalClasses == OverCourses(mine, db.records, Some(studentId), None)
              && r.totalPresent == OverCourses(mine, db.records, Some(studentId), Some(Present))
              && r.totalAbsent == OverCourses(mine, db.records, Some(studentId), Some(Absent))
    ensures IdsUnique(db.courses) && r.StudentTotals? ==>
              var enrolled := IdsWhere(db.courses, ByStudent(studentId));
              && r.totalClasses == Count(db.records, enrolled, Some(studentId), None)
              && r.totalPresent == Count(db.records, enrolled, Some(studentId), Some(Present))
              && r.totalAbsent == Count(db.records, enrolled, Some(studentId), Some(Absent))
  {
    var courses := CoursesWhere(db.courses, ByStudent(studentId));
    NothingWhere(db.courses, ByStudent(studentId));
    if |courses| == 0 {
      return NoCoursesForStudent;
    }
    var who := Some(studentId);
    var totalClasses, totalPresent, totalAbsent := 0, 0, 0;
    var i := 0;
    while i < |courses|
      invariant i <= |courses|
      invariant totalClasses == OverCourses(courses[..i], db.records, who, None)
      invariant totalPresent == OverCourses(courses[..i], db.records, who, Some(Present))
      invariant totalAbsent == OverCourses(courses[..i], db.records, who, Some(Absent))
      invariant OverCourses(courses[..i], db.records, who, Some(Late)) == 0
    {
      var ids := {courses[i].id};
      var attendanceData := RecordsOf(db.records, courses[i].id, studentId);
      totalClasses := totalClasses + |attendanceData|;
      RecordsOfCount(db.records, courses[i].id, studentId, Present);
      RecordsOfCount(db.records, courses[i].id, studentId, Absent);
      RecordsOfCount(db.records, courses[i].id, studentId, Late);
      OverCoursesStep(courses, i, db.records, who, Some(Late));
      var presentCount, absentCount, late := TallyEntries(attendanceData, ids, who);
      if late {
        OverCoursesPrefix(courses, i + 1, db.records, who, Some(Late));
        return SummaryFailed;
      }
      OverCoursesStep(courses, i, db.records, who, None);
      OverCoursesStep(courses, i, db.records, who, Some(Present));
      OverCoursesStep(courses, i, db.records, who, Some(Absent));
      totalPresent, totalAbsent := totalPresent + presentCount, totalAbsent + absentCount;
      i := i + 1;
    }
    assert courses[..i] == courses;
    if IdsUnique(db.courses) {
      OverMatching(db.courses, ByStudent(studentId), db.records, who, None);
      OverMatching(db.courses, ByStudent(studentId), db.records, who, Some(Present));
      OverMatching(db.courses, ByStudent(studentId), db.records, who, Some(Absent));
    }
    r := StudentTotals(totalClasses, totalPresent, totalAbsent);
  }

  /**
    * `POST /create/:courseId` on the store: the checks, the session save,
    * the roster insert and the two timers, in the handler's order.
    */
  method OpenSession(db: Db, course: Option<Course>, caller: Id, now: Instant, qr: Option<string>)
    returns (outcome: OpenOutcome)
    modifies db`sessions, db`records, db`timers
    ensures (db.State(), outcome) == Open(old(db.State()), course, caller, now, qr)
    ensures Linked(old(db.State())) ==> Linked(db.State())
  {
    if course.None? {
      return CourseNotFound;
    }
    var w := Resolve(course.value.schedule, now);
    if !w.Window? {
      return Rejected(w);
    }
    if qr.None? {
      return QrFailed;
    }
    var made := SessionFor(course.value, w, now, qr.value);
    if made.Err? {
      return SessionInvalid(made.error);
    }
    var session := made.value;
    var key := |db.sessions|;
    db.sessions := db.sessions + [session];
    db.records := db.records + Roster(course.value, key, now, caller);
    var delay := session.endTime - now;
    var timers0 := db.timers;
    if delay > 0 {
      db.timers := db.timers + [AbsentTimer(key, session.endTime)];
    }
    db.timers := db.timers + [InactiveTimer(key, session.endTime)];
    assert db.timers == timers0 + ((if delay > 0 then [AbsentTimer(key, session.endTime)] else [])
                                   + [InactiveTimer(key, session.endTime)]);
    outcome := Opened(key, delay > 0);
  }

  /** One of the scheduled jobs runs at `now`. */
  method FireTimer(db: Db, t: nat, now: Instant)
    modifies db`sessions, db`records
    ensures db.State() == Step(old(db.State()), FireEvent(t, now))
  {
    if t < |db.timers| {
      match db.timers[t]
      case AbsentTimer(key, end) =>
        db.records := AbsentSweep(db.records, key, end, now);
      case InactiveTimer(key, end) =>
        db.sessions := Deactivate(db.sessions, key, end, now);
    }
  }

  /**
    * The job scheduled at start-up, run at `now`: find the expired active
    * sessions and, when there are any, mark them inactive. Returns how
    * many it found.
    */
  method SweepExpired(db: Db, now: Instant) returns (updated: nat)
    modifies db`sessions
    ensures db.sessions == GlobalSweep(old(db.sessions), now)
    ensures updated == |Expired(old(db.sessions), now)|
  {
    var expiredSessions := Expired(db.sessions, now);
    ExpiredThenDeactivated(db.sessions, now);
    if |expiredSessions| > 0 {
      db.sessions := DeactivateAll(db.sessions, expiredSessions);
    }
    updated := |expiredSessions|;
  }

  /**
    * `PUT /mark/:sessionIdentifier` on the store, the record changed in
    * place: the handler as written, whose `findOne` reaches the first
    * session with the identifier.
    */
  method MarkAttendance(db: Db, identifier: string, studentId: Id, now: Instant) returns (outcome: MarkOutcome)
    modifies db`records
    ensures (outcome, db.records) == MarkAsWritten(old(db.State()), identifier, studentId, now)
  {
    var found := FindSessionAsWritten(db.sessions, identifier);
    outcome := MarkFound(db, found, studentId, now);
  }

  /** The same handler reaching the latest session with the identifier. */
  method MarkAttendanceLatest(db: Db, identifier: string, studentId: Id, now: Instant) returns (outcome: MarkOutcome)
    modifies db`records
    ensures (outcome, db.records) == Mark(old(db.State()), identifier, studentId, now)
  {
    var found := FindSession(db.sessions, identifier);
    outcome := MarkFound(db, found, studentId, now);
  }

  /** The guard chain of the mark handler once a session lookup has answered. */
  method MarkFound(db: Db, found: Option<nat>, studentId: Id, now: Instant) returns (outcome: MarkOutcome)
    requires found.Some? ==> found.value < |db.sessions|
    modifies db`records
    ensures (outcome, db.records) == MarkWith(old(db.State()), found, studentId, now)
  {
    if found.None? {
      return SessionNotFound;
    }
    var session := db.sessions[found.value];
    if !session.isActive || now < session.startTime || now > session.endTime {
      return NotOpen;
    }
    var k := FindRecord(db.records, found.value, studentId);
    if k.None? {
      return RecordNotFound;
    }
    if db.records[k.value].status != Pending {
      return AlreadyMarked;
    }
    db.records := db.records[k.value := db.records[k.value].(status := Present)];
    outcome := Marked;
  }

  /** One row of `attendanceList`. */
  datatype ViewEntry = ViewEntry(lectureDate: Instant, status: Status, isActive: bool, isWithinTimeframe: bool)

  datatype ViewOutcome =
    | ViewCourseNotFound  // 404 "Course not found"
    | NotEnrolled         // 403 "You are not enrolled in this course"
    | ViewFailed          // 500, a record whose session is gone
    | CourseView(courseName: string, courseCode: string, attendanceList: seq<ViewEntry>)  // 200

  /** The row for a record whose session is `s`. */
  function EntryFor(s: Session, r: Record, now: Instant): ViewEntry {
    ViewEntry(s.lectureDate, r.status, s.isActive, s.startTime <= now && now <= s.endTime)
  }

  /**
    * `GET /student/:courseId`: the course, the enrolment check, then one
    * row per record of the caller in that course, read through its
    * populated session. A record whose session no longer exists
    * populates to null and the handler fails on it.
    */
  function StudentCourseView(st: Store, course: Option<Course>, studentId: Id, now: Instant): (r: ViewOutcome)
    ensures r == ViewCourseNotFound <==> course.None?
    ensures r == NotEnrolled <==> course.Some? && studentId !in course.value.students
    ensures r == ViewFailed <==>
              course.Some? && studentId in course.value.students
              && exists x :: x in RecordsOf(st.records, course.value.id, studentId) && x.session >= |st.sessions|
    ensures Linked(st) && course.Some? && studentId in course.value.students ==> r.CourseView?
    ensures r.CourseView? ==>
              var mine := RecordsOf(st.records, course.value.id, studentId);
              && r.courseName == course.value.name && r.courseCode == course.value.code
              && |r.attendanceList| == |mine|
              && forall i :: 0 <= i < |mine| ==>
                   mine[i].session < |st.sessions|
                   && var s := st.sessions[mine[i].session];
                   && r.attendanceList[i].lectureDate == s.lectureDate
                   && r.attendanceList[i].status == mine[i].status
                   && r.attendanceList[i].isActive == s.isActive
                   && (r.attendanceList[i].isWithinTimeframe <==> s.startTime <= now <= s.endTime)
                   && (r.attendanceList[i].isActive && r.attendanceList[i].isWithinTimeframe <==> OpenAt(s, now))
  {
    if course.None? then ViewCourseNotFound
    else if studentId !in course.value.students then NotEnrolled
    else
      var mine := RecordsOf(st.records, course.value.id, studentId);
      if exists x :: x in mine && x.session >= |st.sessions| then ViewFailed
      else
        assert forall i :: 0 <= i < |mine| ==> mine[i] in mine;
        CourseView(course.value.name, course.value.code,
                   seq(|mine|, i requires 0 <= i < |mine| => EntryFor(st.sessions[mine[i].session], mine[i], now)))
  }
}
