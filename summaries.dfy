/**
  * The counters of the two attendance summaries: records counted per
  * course, per student and per status, and what adding the per-course
  * counts up over a list of courses amounts to.
  */
module Summaries {
  import opened Base
  import opened CourseModel
  import opened AttendanceModel

  /** A record of one of `ids`, of `who` when a student is given, with status `s` when one is given. */
  predicate Selected(r: Record, ids: set<Id>, who: Option<Id>, s: Option<Status>) {
    && r.course in ids
    && (who.None? || r.student == who.value)
    && (s.None? || r.status == s.value)
  }

  /** How many of `rs` are selected. */
  function Count(rs: seq<Record>, ids: set<Id>, who: Option<Id>, s: Option<Status>): (n: nat)
    ensures n <= |rs|
    decreases |rs|
  {
    if |rs| == 0 then 0
    else Count(rs[..|rs| - 1], ids, who, s) + (if Selected(rs[|rs| - 1], ids, who, s) then 1 else 0)
  }

  /** The ids of a course list. */
  function CourseIds(cs: seq<Course>): set<Id> {
    set k | 0 <= k < |cs| :: cs[k].id
  }

  /** The per-course counts of `cs`, added up in list order. */
  function OverCourses(cs: seq<Course>, rs: seq<Record>, who: Option<Id>, s: Option<Status>): nat
    decreases |cs|
  {
    if |cs| == 0 then 0
    else OverCourses(cs[..|cs| - 1], rs, who, s) + Count(rs, {cs[|cs| - 1].id}, who, s)
  }

  /** Counting over one more course id adds that course's count. */
  lemma {:induction false} CountAddCourse(rs: seq<Record>, ids: set<Id>, x: Id, who: Option<Id>, s: Option<Status>)
    requires x !in ids
    ensures Count(rs, ids + {x}, who, s) == Count(rs, ids, who, s) + Count(rs, {x}, who, s)
    decreases |rs|
  {
    if |rs| > 0 {
      CountAddCourse(rs[..|rs| - 1], ids, x, who, s);
    }
  }

  /**
    * Over courses with distinct ids, adding up the per-course counts
    * counts every selected record of those courses once.
    */
  lemma {:induction false} OverCoursesCounts(cs: seq<Course>, rs: seq<Record>, who: Option<Id>, s: Option<Status>)
    requires IdsUnique(cs)
    ensures OverCourses(cs, rs, who, s) == Count(rs, CourseIds(cs), who, s)
    decreases |cs|
  {
    if |cs| == 0 {
      assert CourseIds(cs) == {};
      CountNone(rs, who, s);
    } else {
      var front, last := cs[..|cs| - 1], cs[|cs| - 1];
      assert IdsUnique(front);
      OverCoursesCounts(front, rs, who, s);
      assert CourseIds(cs) == CourseIds(front) + {last.id} by {
        assert forall k :: 0 <= k < |front| ==> front[k] == cs[k];
      }
      CountAddCourse(rs, CourseIds(front), last.id, who, s);
    }
  }

  /** Nothing is counted over no course. */
  lemma {:induction false} CountNone(rs: seq<Record>, who: Option<Id>, s: Option<Status>)
    ensures Count(rs, {}, who, s) == 0
    decreases |rs|
  {
    if |rs| > 0 {
      CountNone(rs[..|rs| - 1], who, s);
    }
  }

  /**
    * A record of a student counts as a class, and as present, absent or
    * late by its status; a pending record counts as a class only.
    */
  lemma {:induction false} ClassesByStatus(rs: seq<Record>, ids: set<Id>, who: Option<Id>)
    ensures Count(rs, ids, who, None) ==
              Count(rs, ids, who, Some(Pending)) + Count(rs, ids, who, Some(Present))
              + Count(rs, ids, who, Some(Absent)) + Count(rs, ids, who, Some(Late))
    decreases |rs|
  {
    if |rs| > 0 {
      ClassesByStatus(rs[..|rs| - 1], ids, who);
    }
  }

  /** The records of course `course` and student `student`, in stored order: `Attendance.find({ student, course })`. */
  function RecordsOf(rs: seq<Record>, course: Id, student: Id): (r: seq<Record>)
    ensures forall x :: x in r <==> x in rs && x.course == course && x.student == student
    ensures |r| == Count(rs, {course}, Some(student), None)
    decreases |rs|
  {
    if |rs| == 0 then []
    else
      var last := rs[|rs| - 1];
      RecordsOf(rs[..|rs| - 1], course, student) + (if last.course == course && last.student == student then [last] else [])
  }

  /** Counting a status among a course's records of a student is counting it among all records. */
  lemma {:induction false} RecordsOfCount(rs: seq<Record>, course: Id, student: Id, s: Status)
    ensures Count(RecordsOf(rs, course, student), {course}, Some(student), Some(s))
            == Count(rs, {course}, Some(student), Some(s))
    ensures Count(RecordsOf(rs, course, student), {course}, Some(student), None) == |RecordsOf(rs, course, student)|
    decreases |rs|
  {
    if |rs| > 0 {
      var front, last := rs[..|rs| - 1], rs[|rs| - 1];
      var sel := RecordsOf(front, course, student);
      RecordsOfCount(front, course, student, s);
      var all := RecordsOf(rs, course, student);
      if last.course == course && last.student == student {
        assert all == sel + [last];
        assert all[..|all| - 1] == sel && all[|all| - 1] == last;
      } else {
        assert all == sel;
      }
    }
  }

  /** The ids of the courses a query selects. */
  function IdsWhere(courses: seq<Course>, q: CourseQuery): set<Id> {
    set c | c in courses && Matches(q, c) :: c.id
  }

  lemma CourseIdsWhere(courses: seq<Course>, q: CourseQuery)
    ensures CourseIds(CoursesWhere(courses, q)) == IdsWhere(courses, q)
  {
    var cs := CoursesWhere(courses, q);
    forall x | x in IdsWhere(courses, q) ensures x in CourseIds(cs) {
      var c :| c in courses && Matches(q, c) && c.id == x;
      assert c in cs;
      var k :| 0 <= k < |cs| && cs[k] == c;
    }
    forall x | x in CourseIds(cs) ensures x in IdsWhere(courses, q) {
      var k :| 0 <= k < |cs| && cs[k].id == x;
      assert cs[k] in cs;
    }
  }

  /** A prefix of the records never counts more. */
  lemma {:induction false} CountPrefix(rs: seq<Record>, n: nat, ids: set<Id>, who: Option<Id>, s: Option<Status>)
    requires n <= |rs|
    ensures Count(rs[..n], ids, who, s) <= Count(rs, ids, who, s)
    decreases |rs|
  {
    if n < |rs| {
      assert rs[..n] == rs[..|rs| - 1][..n];
      CountPrefix(rs[..|rs| - 1], n, ids, who, s);
    } else {
      assert rs[..n] == rs;
    }
  }

  /** A prefix of the courses never adds up to more. */
  lemma {:induction false} OverCoursesPrefix(cs: seq<Course>, n: nat, rs: seq<Record>, who: Option<Id>, s: Option<Status>)
    requires n <= |cs|
    ensures OverCourses(cs[..n], rs, who, s) <= OverCourses(cs, rs, who, s)
    decreases |cs|
  {
    if n < |cs| {
      assert cs[..n] == cs[..|cs| - 1][..n];
      OverCoursesPrefix(cs[..|cs| - 1], n, rs, who, s);
    } else {
      assert cs[..n] == cs;
    }
  }

  /** One more course adds its own count. */
  lemma OverCoursesStep(cs: seq<Course>, i: nat, rs: seq<Record>, who: Option<Id>, s: Option<Status>)
    requires i < |cs|
    ensures OverCourses(cs[..i + 1], rs, who, s) == OverCourses(cs[..i], rs, who, s) + Count(rs, {cs[i].id}, who, s)
  {
    assert cs[..i + 1][..i] == cs[..i];
  }

  /** A query finds nothing exactly when no course matches it. */
  lemma NothingWhere(courses: seq<Course>, q: CourseQuery)
    ensures |CoursesWhere(courses, q)| == 0 <==> forall c :: c in courses ==> !Matches(q, c)
  {
    var cs := CoursesWhere(courses, q);
    if |cs| > 0 {
      assert cs[0] in cs;
    }
  }

  /**
    * Over the courses a query finds (ids distinct), the per-course counts
    * add up to the count over the ids of the matching courses.
    */
  lemma OverMatching(courses: seq<Course>, q: CourseQuery, rs: seq<Record>, who: Option<Id>, s: Option<Status>)
    requires IdsUnique(courses)
    ensures OverCourses(CoursesWhere(courses, q), rs, who, s) == Count(rs, IdsWhere(courses, q), who, s)
  {
    CourseIdsWhere(courses, q);
    OverCoursesCounts(CoursesWhere(courses, q), rs, who, s);
  }
}
