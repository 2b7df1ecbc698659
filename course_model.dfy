/**
  * The course schema with its nested weekly schedule, and the department a
  * course belongs to (a department is only its name and course list here).
  */
module CourseModel {
  import opened Base

  /** One weekly slot; an empty string is a missing value. */
  datatype ScheduleEntry = ScheduleEntry(day: string, startTime: string, endTime: string)

  datatype Course = Course(
    id: Id,
    name: string,
    code: string,
    teacher: Id,
    students: seq<Id>,
    schedule: seq<ScheduleEntry>,
    semesterStartDate: Instant,
    semesterDuration: int)

  datatype Department = Department(id: Id, name: string, courses: seq<Id>)

  datatype EntryPart = Day | Start | End

  datatype CourseField = NameField | CodeField | TeacherField | EntryField(index: nat, part: EntryPart)

  /**
    * The required validators that fail: name, code and teacher, and day,
    * start and end of every schedule entry (a required string rejects "").
    * The students list may be empty; the two semester fields are always
    * present in this typed model.
    */
  function CourseViolations(c: Course): set<CourseField>
  {
    (if c.name == "" then {NameField} else {})
    + (if c.code == "" then {CodeField} else {})
    + (if c.teacher == "" then {TeacherField} else {})
    + (set i, p | 0 <= i < |c.schedule| && p in {Day, Start, End} && EntryText(c.schedule[i], p) == ""
         :: EntryField(i, p))
  }

  function EntryText(e: ScheduleEntry, p: EntryPart): string {
    match p
    case Day => e.day
    case Start => e.startTime
    case End => e.endTime
  }

  /** A course passes validation iff its required strings, entry by entry, are non-empty. */
  predicate ValidCourse(c: Course)
  {
    CourseViolations(c) == {}
  }

  lemma ValidCourseFields(c: Course)
    ensures ValidCourse(c) <==>
              c.name != "" && c.code != "" && c.teacher != ""
              && forall i :: 0 <= i < |c.schedule| ==>
                   c.schedule[i].day != "" && c.schedule[i].startTime != "" && c.schedule[i].endTime != ""
  {
    if !ValidCourse(c) && c.name != "" && c.code != "" && c.teacher != "" {
      var f :| f in CourseViolations(c);
      assert f.EntryField?;
      assert EntryText(c.schedule[f.index], f.part) == "";
    }
    if ValidCourse(c) {
      forall i | 0 <= i < |c.schedule|
        ensures c.schedule[i].day != "" && c.schedule[i].startTime != "" && c.schedule[i].endTime != ""
      {
        assert EntryField(i, Day) !in CourseViolations(c);
        assert EntryField(i, Start) !in CourseViolations(c);
        assert EntryField(i, End) !in CourseViolations(c);
      }
    }
  }

  /** The unique index on `code`: no two courses of a collection share a code. */
  predicate CodesUnique(courses: seq<Course>)
  {
    forall i, j :: 0 <= i < j < |courses| ==> courses[i].code != courses[j].code
  }

  /** The `_id` index: no two courses of a collection share an id. */
  predicate IdsUnique(courses: seq<Course>)
  {
    forall i, j :: 0 <= i < j < |courses| ==> courses[i].id != courses[j].id
  }

  /** The filters the handlers give `Course.find`. */
  datatype CourseQuery = AllCourses | ByTeacher(teacher: Id) | ByStudent(student: Id)

  predicate Matches(q: CourseQuery, c: Course) {
    match q
    case AllCourses => true
    case ByTeacher(t) => c.teacher == t
    case ByStudent(s) => s in c.students
  }

  /** `Course.find(q)`: the matching courses, in collection order. */
  function CoursesWhere(courses: seq<Course>, q: CourseQuery): (r: seq<Course>)
    ensures forall c :: c in r <==> c in courses && Matches(q, c)
    ensures |r| <= |courses|
    ensures IdsUnique(courses) ==> IdsUnique(r)
    ensures q.AllCourses? ==> r == courses
    decreases |courses|
  {
    if |courses| == 0 then []
    else
      var rest := CoursesWhere(courses[1..], q);
      assert IdsUnique(courses) ==> forall c :: c in rest ==> c.id != courses[0].id;
      (if Matches(q, courses[0]) then [courses[0]] else []) + rest
  }

  /** `Course.findById(id)`: the position of the course with that id. */
  function FindCourse(courses: seq<Course>, id: Id): (r: Option<nat>)
    ensures r.Some? ==> r.value < |courses| && courses[r.value].id == id
                        && forall j :: 0 <= j < r.value ==> courses[j].id != id
    ensures r.None? <==> forall j :: 0 <= j < |courses| ==> courses[j].id != id
  {
    FindFirst(courses, (c: Course) => c.id == id)
  }

  /** `Department.findById(id)`: the position of the department with that id. */
  function FindDepartment(departments: seq<Department>, id: Id): (r: Option<nat>)
    ensures r.Some? ==> r.value < |departments| && departments[r.value].id == id
                        && forall j :: 0 <= j < r.value ==> departments[j].id != id
    ensures r.None? <==> forall j :: 0 <= j < |departments| ==> departments[j].id != id
  {
    FindFirst(departments, (d: Department) => d.id == id)
  }

  /**
    * `populate("courses")` on a department: the ids of its list that name an
    * existing course, in list order (references to deleted courses drop out).
    */
  function Populated(courses: seq<Course>, ids: seq<Id>): (r: seq<Id>)
    ensures forall x :: x in r <==> x in ids && FindCourse(courses, x).Some?
    ensures |r| <= |ids|
    decreases |ids|
  {
    if |ids| == 0 then []
    else (if FindCourse(courses, ids[0]).Some? then [ids[0]] else []) + Populated(courses, ids[1..])
  }

  /**
    * Set-insert of `student` into the course with id `x`: `findById` finds the
    * first course with that id, and the student is pushed only if absent.
    */
  function EnrollOne(courses: seq<Course>, x: Id, student: Id): (r: seq<Course>)
    ensures |r| == |courses|
  {
    var k := FindCourse(courses, x);
    if k.Some? && student !in courses[k.value].students then
      courses[k.value := courses[k.value].(students := courses[k.value].students + [student])]
    else courses
  }

  /** Set-insert of `student` into every listed course, one course after the other. */
  function Enroll(courses: seq<Course>, ids: seq<Id>, student: Id): (r: seq<Course>)
    ensures |r| == |courses|
    decreases |ids|
  {
    if |ids| == 0 then courses
    else EnrollOne(Enroll(courses, ids[..|ids| - 1], student), ids[|ids| - 1], student)
  }

  /** What enrolling does to one course: a listed course gains the student at the end of its list unless already there; nothing else changes. */
  function Enrolled(c: Course, ids: seq<Id>, student: Id): Course
  {
    if c.id in ids && student !in c.students then c.(students := c.students + [student]) else c
  }

  /**
    * With unique course ids, enrolling changes each course independently of
    * the others and of the order of the list: a listed course ends with the
    * student in its list, added once at the end if it was missing; every
    * other course, and every other field and student, is untouched.
    */
  lemma {:induction false} EnrollMeaning(courses: seq<Course>, ids: seq<Id>, student: Id)
    requires IdsUnique(courses)
    ensures |Enroll(courses, ids, student)| == |courses|
    ensures forall k :: 0 <= k < |courses| ==>
              Enroll(courses, ids, student)[k] == Enrolled(courses[k], ids, student)
    decreases |ids|
  {
    if |ids| > 0 {
      var front, x := ids[..|ids| - 1], ids[|ids| - 1];
      assert ids == front + [x];
      EnrollMeaning(courses, front, student);
      var e := Enroll(courses, front, student);
      assert forall k :: 0 <= k < |e| ==> e[k].id == courses[k].id;
      var r := Enroll(courses, ids, student);
      assert r == EnrollOne(e, x, student);
      forall k | 0 <= k < |courses|
        ensures r[k] == Enrolled(courses[k], ids, student)
      {
        var c := courses[k];
        assert c.id in ids <==> c.id in front || c.id == x;
        var f := FindCourse(e, x);
        if f.Some? && f.value == k {
          assert c.id == x;
        } else {
          assert c.id != x;
        }
      }
    }
  }

  /** Enrolling the same student in the same courses again changes nothing. */
  lemma EnrollIdempotent(courses: seq<Course>, ids: seq<Id>, student: Id)
    requires IdsUnique(courses)
    ensures Enroll(Enroll(courses, ids, student), ids, student) == Enroll(courses, ids, student)
  {
    var e := Enroll(courses, ids, student);
    EnrollMeaning(courses, ids, student);
    assert IdsUnique(e) by {
      assert forall k :: 0 <= k < |e| ==> e[k].id == courses[k].id;
    }
    EnrollMeaning(e, ids, student);
  }
}
