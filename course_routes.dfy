/**
  * The course handlers: the listings by role, creation with its department
  * append, registration of a student for a department's courses, the
  * owner-or-admin update and delete, and the per-lecture-date report.
  */
module CourseRoutes {
  import opened Base
  import opened UserModel
  import opened CourseModel
  import opened AttendanceModel
  import opened Database
  import opened AuthMiddleware
  import opened DateReport

  datatype ListOutcome = NoCoursesFound | Listed(courses: seq<Course>)

  /** The filter a listing handler uses for its caller; None leaves `courses` undefined. */
  function ListingQuery(caller: User): Option<CourseQuery>
  {
    if caller.role == "admin" then Some(AllCourses)
    else if caller.role == "teacher" then Some(ByTeacher(caller.id))
    else if caller.role == "student" then Some(ByStudent(caller.id))
    else None
  }

  /** Whether `GET /` shows course `c` to `caller`. */
  predicate VisibleTo(caller: User, c: Course) {
    || caller.role == "admin"
    || (caller.role == "teacher" && c.teacher == caller.id)
    || (caller.role == "student" && caller.id in c.students)
  }

  /**
    * `GET /`: every course for an admin, the caller's own courses for a
    * teacher, the courses a student is enrolled in for a student, and 404
    * when that leaves none (or the role is none of the three).
    */
  function ListCourses(courses: seq<Course>, caller: User): (r: ListOutcome)
    ensures r == NoCoursesFound <==> forall c :: c in courses ==> !VisibleTo(caller, c)
    ensures r.Listed? ==> forall c :: c in r.courses <==> c in courses && VisibleTo(caller, c)
    ensures r.Listed? && caller.role == "admin" ==> r.courses == courses
  {
    var q := ListingQuery(caller);
    if q.None? then NoCoursesFound
    else
      var found := CoursesWhere(courses, q.value);
      assert forall c :: Matches(q.value, c) <==> VisibleTo(caller, c);
      if |found| == 0 then
        assert forall c :: c in courses ==> !VisibleTo(caller, c);
        NoCoursesFound
      else
        assert found[0] in found;
        Listed(found)
  }

  /** `GET /student`: the courses whose student list holds the caller, or 404. */
  function StudentCourses(courses: seq<Course>, callerId: Id): (r: ListOutcome)
    ensures r == NoCoursesFound <==> forall c :: c in courses ==> callerId !in c.students
    ensures r.Listed? ==> forall c :: c in r.courses <==> c in courses && callerId in c.students
  {
    var found := CoursesWhere(courses, ByStudent(callerId));
    if |found| == 0 then NoCoursesFound else assert found[0] in found; Listed(found)
  }

  /** `GET /teacher`: the courses the caller teaches, or 404. */
  function TeacherCourses(courses: seq<Course>, callerId: Id): (r: ListOutcome)
    ensures r == NoCoursesFound <==> forall c :: c in courses ==> c.teacher != callerId
    ensures r.Listed? ==> forall c :: c in r.courses <==> c in courses && c.teacher == callerId
  {
    var found := CoursesWhere(courses, ByTeacher(callerId));
    if |found| == 0 then NoCoursesFound else assert found[0] in found; Listed(found)
  }

  /**
    * The body of `POST /create`. A date is None when it is absent or empty;
    * `schedule` is an array, truthy even when empty.
    */
  datatype CourseRequest = CourseRequest(
    name: Option<string>,
    code: Option<string>,
    departmentId: Option<Id>,
    schedule: Option<seq<ScheduleEntry>>,
    semesterStartDate: Option<Instant>,
    semesterDuration: Option<int>)

  /** All six fields truthy; a duration of 0 is falsy. */
  predicate AllGiven(req: CourseRequest) {
    && Truthy(req.name) && Truthy(req.code) && Truthy(req.departmentId)
    && req.schedule.Some? && req.semesterStartDate.Some?
    && req.semesterDuration.Some? && req.semesterDuration.value != 0
  }

  datatype CreateOutcome =
    | AllFieldsRequired
    | DepartmentNotFound
    | CodeExists
    | CourseInvalid(fields: set<CourseField>)
    | Created(course: Course)

  /** The document `Course.create` builds: the caller as teacher, no students. */
  function NewCourse(req: CourseRequest, teacher: Id, newId: Id): Course
    requires AllGiven(req)
  {
    Course(newId, req.name.value, req.code.value, teacher, [], req.schedule.value,
           req.semesterStartDate.value, req.semesterDuration.value)
  }

  /** The answer of `POST /create`, in the order the handler checks. */
  function CreateDecision(req: CourseRequest, departments: seq<Department>, courses: seq<Course>,
                          teacher: Id, newId: Id): (r: CreateOutcome)
    ensures r == AllFieldsRequired <==> !AllGiven(req)
    ensures r == DepartmentNotFound <==>
              AllGiven(req) && forall j :: 0 <= j < |departments| ==> departments[j].id != req.departmentId.value
    ensures r == CodeExists <==>
              AllGiven(req) && FindDepartment(departments, req.departmentId.value).Some?
              && exists j :: 0 <= j < |courses| && courses[j].code == req.code.value
    ensures r.CourseInvalid? ==> AllGiven(req) && r.fields == CourseViolations(NewCourse(req, teacher, newId))
    ensures r.CourseInvalid? <==>
              AllGiven(req) && FindDepartment(departments, req.departmentId.value).Some?
              && (forall j :: 0 <= j < |courses| ==> courses[j].code != req.code.value)
              && !ValidCourse(NewCourse(req, teacher, newId))
    ensures r.Created? ==>
              AllGiven(req) && r.course == NewCourse(req, teacher, newId) && ValidCourse(r.course)
              && FindDepartment(departments, req.departmentId.value).Some?
              && forall j :: 0 <= j < |courses| ==> courses[j].code != r.course.code
  {
    if !AllGiven(req) then AllFieldsRequired
    else if FindDepartment(departments, req.departmentId.value).None? then DepartmentNotFound
    else if exists j :: 0 <= j < |courses| && courses[j].code == req.code.value then CodeExists
    else
      var c := NewCourse(req, teacher, newId);
      if !ValidCourse(c) then CourseInvalid(CourseViolations(c)) else Created(c)
  }

  /**
    * `POST /create` for `caller` (past `isTeacher`); `newId` is the fresh
    * `_id` the course receives. On success the course is stored and its id
    * pushed onto the department's course list.
    */
  method CreateCourse(db: Db, caller: User, req: CourseRequest, newId: Id) returns (outcome: CreateOutcome)
    requires forall j :: 0 <= j < |db.courses| ==> db.courses[j].id != newId
    modifies db`courses, db`departments
    ensures outcome == CreateDecision(req, old(db.departments), old(db.courses), caller.id, newId)
    ensures !outcome.Created? ==> db.courses == old(db.courses) && db.departments == old(db.departments)
    ensures outcome.Created? ==>
              var d := FindDepartment(old(db.departments), req.departmentId.value).value;
              && db.courses == old(db.courses) + [outcome.course]
              && db.departments == old(db.departments)[d := old(db.departments)[d].(courses := old(db.departments)[d].courses + [newId])]
    ensures CodesUnique(old(db.courses)) ==> CodesUnique(db.courses)
    ensures IdsUnique(old(db.courses)) ==> IdsUnique(db.courses)
  {
    outcome := CreateDecision(req, db.departments, db.courses, caller.id, newId);
    if outcome.Created? {
      var d := FindDepartment(db.departments, req.departmentId.value).value;
      db.courses := db.courses + [outcome.course];
      db.departments := db.departments[d := db.departments[d].(courses := db.departments[d].courses + [newId])];
    }
  }

  datatype RegisterOutcome =
    | DepartmentIdRequired
    | UnknownDepartment
    | CallerNotLoaded
    | UserSaveFailed(error: SaveError)
    | CoursesRegistered(courses: seq<Id>)

  /**
    * `POST /register` for the authenticated user `callerId`: every existing
    * course of the department gains the caller unless it already lists it,
    * one course after the other, and then the caller's own course list is
    * replaced by those ids. The caller document was loaded without its
    * password, so the save does not hash anything (`salt` is never used).
    */
  method RegisterForDepartment(db: Db, callerId: Id, departmentId: Option<Id>, salt: nat)
    returns (outcome: RegisterOutcome)
    modifies db`courses, db`users
    ensures !Truthy(departmentId) ==>
              outcome == DepartmentIdRequired && db.courses == old(db.courses) && db.users == old(db.users)
    ensures Truthy(departmentId) && FindDepartment(db.departments, departmentId.value).None? ==>
              outcome == UnknownDepartment && db.courses == old(db.courses) && db.users == old(db.users)
    ensures Truthy(departmentId) && FindDepartment(db.departments, departmentId.value).Some?
            && FindUser(old(db.users), callerId).None? ==>
              outcome == CallerNotLoaded && db.courses == old(db.courses) && db.users == old(db.users)
    ensures Truthy(departmentId) && FindDepartment(db.departments, departmentId.value).Some?
            && FindUser(old(db.users), callerId).Some? ==>
              var ids := Populated(old(db.courses), db.departments[FindDepartment(db.departments, departmentId.value).value].courses);
              var k := FindUser(old(db.users), callerId).value;
              && db.courses == Enroll(old(db.courses), ids, callerId)
              && match UpdateUser(old(db.users), k, old(db.users)[k].(courses := ids), salt)
                 case Ok(us) => db.users == us && outcome == CoursesRegistered(ids) && db.users[k].courses == ids
                 case Err(e) => db.users == old(db.users) && outcome == UserSaveFailed(e)
  {
    if !Truthy(departmentId) {
      return DepartmentIdRequired;
    }
    var d := FindDepartment(db.departments, departmentId.value);
    if d.None? {
      return UnknownDepartment;
    }
    var k := FindUser(db.users, callerId);
    if k.None? {
      return CallerNotLoaded;
    }
    var ids := Populated(db.courses, db.departments[d.value].courses);
    var i := 0;
    while i < |ids|
      invariant 0 <= i <= |ids|
      invariant db.courses == Enroll(old(db.courses), ids[..i], callerId)
      invariant db.users == old(db.users)
    {
      var c := FindCourse(db.courses, ids[i]);
      if c.Some? && callerId !in db.courses[c.value].students {
        db.courses := db.courses[c.value := db.courses[c.value].(students := db.courses[c.value].students + [callerId])];
      }
      assert ids[..i + 1][..i] == ids[..i];
      i := i + 1;
    }
    assert ids[..i] == ids;
    var saved := UpdateUser(db.users, k.value, db.users[k.value].(courses := ids), salt);
    if saved.Err? {
      return UserSaveFailed(saved.error);
    }
    db.users := saved.value;
    outcome := CoursesRegistered(ids);
  }

  /**
    * What registration does to the course list, stated on its own: for unique
    * course ids, a course of the department lists the student afterwards, a
    * course already listing the student and every course outside the
    * department are untouched, and registering a second time changes nothing.
    */
  lemma {:induction false} RegistrationMeaning(courses: seq<Course>, dept: Department, student: Id)
    requires IdsUnique(courses)
    ensures var ids := Populated(courses, dept.courses);
            var after := Enroll(courses, ids, student);
            && |after| == |courses|
            && (forall k :: 0 <= k < |courses| && courses[k].id in dept.courses ==> student in after[k].students)
            && (forall k :: 0 <= k < |courses| && (courses[k].id !in dept.courses || student in courses[k].students)
                  ==> after[k] == courses[k])
            && (forall k :: 0 <= k < |courses| ==>
                  after[k].students == courses[k].students || after[k].students == courses[k].students + [student])
            && Enroll(after, ids, student) == after
  {
    var ids := Populated(courses, dept.courses);
    EnrollMeaning(courses, ids, student);
    EnrollIdempotent(courses, ids, student);
    forall k | 0 <= k < |courses| && courses[k].id in dept.courses
      ensures courses[k].id in ids
    {
      assert FindCourse(courses, courses[k].id).Some?;
    }
  }

  /** Update and delete let through the course's own teacher or an admin. */
  predicate MayModify(c: Course, caller: User) {
    c.teacher == caller.id || caller.role == "admin"
  }

  /** Behind `isTeacher` the admin half never applies: only the owner may update or delete. */
  lemma OwnerOnlyBehindTeacherGate(c: Course, caller: User)
    requires IsTeacher(Some(caller))
    ensures MayModify(c, caller) <==> c.teacher == caller.id
  {
  }

  /** The body of `PUT /update/:courseId`; None is an absent or falsy value. */
  datatype CourseUpdate = CourseUpdate(
    name: Option<string>,
    schedule: Option<seq<ScheduleEntry>>,
    semesterStartDate: Option<Instant>,
    semesterDuration: Option<int>)

  /** `course.x = x || course.x` for the four fields. */
  function MergeCourse(c: Course, u: CourseUpdate): Course
  {
    c.(name := if Truthy(u.name) then u.name.value else c.name,
       schedule := if u.schedule.Some? then u.schedule.value else c.schedule,
       semesterStartDate := if u.semesterStartDate.Some? then u.semesterStartDate.value else c.semesterStartDate,
       semesterDuration := if u.semesterDuration.Some? && u.semesterDuration.value != 0
                           then u.semesterDuration.value else c.semesterDuration)
  }

  /**
    * Each of the four fields comes from the request when truthy there and is
    * kept otherwise; id, code, teacher and students never change; merging the
    * same request again is the same as merging it once.
    */
  lemma MergeCourseMeaning(c: Course, u: CourseUpdate)
    ensures var m := MergeCourse(c, u);
            && m.name == (if Truthy(u.name) then u.name.value else c.name)
            && m.schedule == (if u.schedule.Some? then u.schedule.value else c.schedule)
            && m.semesterStartDate == (if u.semesterStartDate.Some? then u.semesterStartDate.value else c.semesterStartDate)
            && m.semesterDuration == (if u.semesterDuration.Some? && u.semesterDuration.value != 0
                                      then u.semesterDuration.value else c.semesterDuration)
            && m.id == c.id && m.code == c.code && m.teacher == c.teacher && m.students == c.students
            && MergeCourse(m, u) == m
  {
  }

  datatype ChangeOutcome =
    | CourseMissing
    | NotAuthorized
    | ChangeInvalid(fields: set<CourseField>)
    | CourseUpdated(course: Course)
    | CourseDeleted

  /** `PUT /update/:courseId` for `caller` (past `isTeacher`). */
  method UpdateCourse(db: Db, caller: User, courseId: Id, u: CourseUpdate) returns (outcome: ChangeOutcome)
    modifies db`courses
    ensures FindCourse(old(db.courses), courseId).None? ==> outcome == CourseMissing && db.courses == old(db.courses)
    ensures FindCourse(old(db.courses), courseId).Some? ==>
              var k := FindCourse(old(db.courses), courseId).value;
              var merged := MergeCourse(old(db.courses)[k], u);
              && (!MayModify(old(db.courses)[k], caller) ==> outcome == NotAuthorized && db.courses == old(db.courses))
              && (MayModify(old(db.courses)[k], caller) && !ValidCourse(merged) ==>
                    outcome == ChangeInvalid(CourseViolations(merged)) && db.courses == old(db.courses))
              && (MayModify(old(db.courses)[k], caller) && ValidCourse(merged) ==>
                    outcome == CourseUpdated(merged) && db.courses == old(db.courses)[k := merged])
    ensures CodesUnique(old(db.courses)) ==> CodesUnique(db.courses)
    ensures IdsUnique(old(db.courses)) ==> IdsUnique(db.courses)
  {
    var k := FindCourse(db.courses, courseId);
    if k.None? {
      return CourseMissing;
    }
    var course := db.courses[k.value];
    if !MayModify(course, caller) {
      return NotAuthorized;
    }
    var merged := MergeCourse(course, u);
    if !ValidCourse(merged) {
      return ChangeInvalid(CourseViolations(merged));
    }
    db.courses := db.courses[k.value := merged];
    outcome := CourseUpdated(merged);
  }

  /** `DELETE /delete/:courseId` for `caller` (past `isTeacher`). */
  method DeleteCourse(db: Db, caller: User, courseId: Id) returns (outcome: ChangeOutcome)
    modifies db`courses
    ensures FindCourse(old(db.courses), courseId).None? ==> outcome == CourseMissing && db.courses == old(db.courses)
    ensures FindCourse(old(db.courses), courseId).Some? ==>
              var k := FindCourse(old(db.courses), courseId).value;
              && (!MayModify(old(db.courses)[k], caller) ==> outcome == NotAuthorized && db.courses == old(db.courses))
              && (MayModify(old(db.courses)[k], caller) ==>
                    outcome == CourseDeleted && db.courses == old(db.courses)[..k] + old(db.courses)[k + 1..])
  {
    var k := FindCourse(db.courses, courseId);
    if k.None? {
      return CourseMissing;
    }
    if !MayModify(db.courses[k.value], caller) {
      return NotAuthorized;
    }
    db.courses := db.courses[..k.value] + db.courses[k.value + 1..];
    outcome := CourseDeleted;
  }

  /**
    * A deleted course is gone from the collection, and every department
    * list that still names it populates to the same courses less that one.
    */
  lemma {:induction false} DeletedCourseDropsOut(courses: seq<Course>, k: nat, ids: seq<Id>)
    requires IdsUnique(courses) && k < |courses|
    ensures var rest := courses[..k] + courses[k + 1..];
            && FindCourse(rest, courses[k].id).None?
            && forall x :: x in Populated(rest, ids) <==> x in Populated(courses, ids) && x != courses[k].id
  {
    var rest := courses[..k] + courses[k + 1..];
    assert forall j :: 0 <= j < |rest| ==> rest[j] == (if j < k then courses[j] else courses[j + 1]);
    forall x | x != courses[k].id && FindCourse(courses, x).Some?
      ensures FindCourse(rest, x).Some?
    {
      var j := FindCourse(courses, x).value;
      assert j != k;
      if j < k {
        assert rest[j].id == x;
      } else {
        assert rest[j - 1].id == x;
      }
    }
  }

  datatype CourseReport = CourseReport(
    courseName: string,
    courseCode: string,
    totalStudents: nat,
    attendanceByDate: seq<DateCount>)

  /** The `$match` stage: the records of course `courseId` written by teacher `teacherId`. */
  function ReportRecords(records: seq<Record>, courseId: Id, teacherId: Id): (r: seq<Record>)
    ensures forall x :: x in r <==> x in records && x.course == courseId && x.teacher == Some(teacherId)
    decreases |records|
  {
    if |records| == 0 then []
    else
      var last := records[|records| - 1];
      assert records == records[..|records| - 1] + [last];
      ReportRecords(records[..|records| - 1], courseId, teacherId)
      + (if last.course == courseId && last.teacher == Some(teacherId) then [last] else [])
  }

  /** The positions of the stored records of course `courseId` and teacher `teacherId` with date `d` and status `s`. */
  function ReportIndices(records: seq<Record>, courseId: Id, teacherId: Id, d: Instant, s: Status): set<nat> {
    set k: nat | k < |records| && records[k].course == courseId && records[k].teacher == Some(teacherId)
                 && records[k].lectureDate == d && records[k].status == s
  }

  /** The `$match` output for one more stored record. */
  lemma ReportRecordsStep(records: seq<Record>, courseId: Id, teacherId: Id, d: Instant, s: Status)
    requires |records| > 0
    ensures var last := records[|records| - 1];
            CountOn(ReportRecords(records, courseId, teacherId), d, s)
            == CountOn(ReportRecords(records[..|records| - 1], courseId, teacherId), d, s)
               + (if last.course == courseId && last.teacher == Some(teacherId)
                     && last.lectureDate == d && last.status == s then 1 else 0)
  {
    var last := records[|records| - 1];
    var kept := ReportRecords(records[..|records| - 1], courseId, teacherId);
    var r := ReportRecords(records, courseId, teacherId);
    if last.course == courseId && last.teacher == Some(teacherId) {
      assert r == kept + [last];
      assert r[..|r| - 1] == kept && r[|r| - 1] == last;
    } else {
      assert r == kept;
    }
  }

  /** The matching positions for one more stored record. */
  lemma ReportIndicesStep(records: seq<Record>, courseId: Id, teacherId: Id, d: Instant, s: Status)
    requires |records| > 0
    ensures var n, last := |records| - 1, records[|records| - 1];
            var before := ReportIndices(records[..n], courseId, teacherId, d, s);
            && n !in before
            && ReportIndices(records, courseId, teacherId, d, s)
               == before + (if last.course == courseId && last.teacher == Some(teacherId)
                               && last.lectureDate == d && last.status == s then {n} else {})
  {
    var n := |records| - 1;
    assert forall k :: 0 <= k < n ==> records[..n][k] == records[k];
  }

  /**
    * The `$match` stage keeps every matching record with its multiplicity:
    * counting a date and status among its output counts exactly the stored
    * records of the course, the teacher, that date and that status.
    */
  lemma {:induction false} ReportRecordsCount(records: seq<Record>, courseId: Id, teacherId: Id, d: Instant, s: Status)
    ensures CountOn(ReportRecords(records, courseId, teacherId), d, s) == |ReportIndices(records, courseId, teacherId, d, s)|
    decreases |records|
  {
    if |records| == 0 {
      assert ReportIndices(records, courseId, teacherId, d, s) == {};
    } else {
      ReportRecordsCount(records[..|records| - 1], courseId, teacherId, d, s);
      ReportRecordsStep(records, courseId, teacherId, d, s);
      ReportIndicesStep(records, courseId, teacherId, d, s);
    }
  }



  /**
    * `GET /courses-by-teacher`: one report per course the caller teaches, in
    * collection order, with its name, code, number of listed students and
    * the per-date counts of the caller's records of that course.
    */
  function TeacherReport(courses: seq<Course>, records: seq<Record>, teacherId: Id): (r: seq<CourseReport>)
    ensures var mine := CoursesWhere(courses, ByTeacher(teacherId));
            && |r| == |mine|
            && forall i :: 0 <= i < |r| ==>
                 && r[i].courseName == mine[i].name && r[i].courseCode == mine[i].code
                 && r[i].totalStudents == |mine[i].students|
                 && Ascending(r[i].attendanceByDate)
                 && Dates(r[i].attendanceByDate) == LectureDates(ReportRecords(records, mine[i].id, teacherId))
                 && forall j :: 0 <= j < |r[i].attendanceByDate| ==>
                      var row := r[i].attendanceByDate[j];
                      && row.presentCount == CountOn(ReportRecords(records, mine[i].id, teacherId), row.lectureDate, Present)
                      && row.absentCount == CountOn(ReportRecords(records, mine[i].id, teacherId), row.lectureDate, Absent)
  {
    var mine := CoursesWhere(courses, ByTeacher(teacherId));
    forall i | 0 <= i < |mine| {
      ByDateRows(ReportRecords(records, mine[i].id, teacherId));
    }
    seq(|mine|, i requires 0 <= i < |mine| =>
      CourseReport(mine[i].name, mine[i].code, |mine[i].students|, ByDate(ReportRecords(records, mine[i].id, teacherId))))
  }

  /**
    * Each row of a course's report counts exactly the caller's stored
    * records of that course, on that date, with that status.
    */
  lemma TeacherReportCounts(courses: seq<Course>, records: seq<Record>, teacherId: Id, i: nat, j: nat)
    requires i < |TeacherReport(courses, records, teacherId)|
    requires j < |TeacherReport(courses, records, teacherId)[i].attendanceByDate|
    ensures var mine := CoursesWhere(courses, ByTeacher(teacherId));
            var row := TeacherReport(courses, records, teacherId)[i].attendanceByDate[j];
            && row.presentCount == |ReportIndices(records, mine[i].id, teacherId, row.lectureDate, Present)|
            && row.absentCount == |ReportIndices(records, mine[i].id, teacherId, row.lectureDate, Absent)|
  {
    var mine := CoursesWhere(courses, ByTeacher(teacherId));
    var row := TeacherReport(courses, records, teacherId)[i].attendanceByDate[j];
    ReportRecordsCount(records, mine[i].id, teacherId, row.lectureDate, Present);
    ReportRecordsCount(records, mine[i].id, teacherId, row.lectureDate, Absent);
  }
}
