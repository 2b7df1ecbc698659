/**
  * Marking against the session just opened. A session identifier is built
  * from course, weekday and written start time only, so the same slot gives
  * the same identifier every week; `findOne` by identifier then reaches the
  * first session ever opened for the slot rather than the current one.
  */
module WeeklyMarking {
  import opened Base
  import opened CourseModel
  import opened SessionModel
  import opened AttendanceModel
  import opened Schedule
  import opened Lifecycle

  /**
    * Right after a session is opened, a listed student marking with its
    * identifier inside its window is marked present, whatever sessions the
    * store already held: the latest session with the identifier is the new
    * one, and the first record of it for the student is its roster record.
    */
  lemma OpenThenMark(st: Store, course: Course, caller: Id, now: Instant, qr: Option<string>, i: nat, t: Instant)
    requires Linked(st)
    requires Open(st, Some(course), caller, now, qr).1.Opened?
    requires i < |course.students|
    requires var s := Open(st, Some(course), caller, now, qr).0.sessions[|st.sessions|];
             s.startTime <= t <= s.endTime
    ensures var after := Open(st, Some(course), caller, now, qr).0;
            Mark(after, after.sessions[|st.sessions|].identifier, course.students[i], t).0 == Marked
  {
    var after := Open(st, Some(course), caller, now, qr).0;
    var key := |st.sessions|;
    var id := after.sessions[key].identifier;
    var student := course.students[i];
    assert FindSession(after.sessions, id) == Some(key);
    assert after.records[|st.records| + i].session == key && after.records[|st.records| + i].student == student;
    assert forall j :: 0 <= j < |st.records| ==> after.records[j].session < key;
    var k := FindRecord(after.records, key, student);
    assert k.Some? && k.value >= |st.records|;
    assert after.records[k.value].status == Pending;
  }

  /**
    * When an earlier inactive session carries the identifier of the one
    * just opened, marking through the first-match lookup the handler uses
    * answers "not active" to everybody.
    */
  lemma EarlierSessionShadows(st: Store, course: Course, caller: Id, now: Instant, qr: Option<string>,
                              student: Id, t: Instant)
    requires Open(st, Some(course), caller, now, qr).1.Opened?
    requires var id := Open(st, Some(course), caller, now, qr).0.sessions[|st.sessions|].identifier;
             var j := FindSessionAsWritten(st.sessions, id);
             j.Some? && !OpenAt(st.sessions[j.value], t)
    ensures var after := Open(st, Some(course), caller, now, qr).0;
            MarkAsWritten(after, after.sessions[|st.sessions|].identifier, student, t).0 == NotOpen
  {
    var after := Open(st, Some(course), caller, now, qr).0;
    var id := after.sessions[|st.sessions|].identifier;
    FirstMatchKept(st.sessions, [after.sessions[|st.sessions|]], id);
  }

  /**
    * A slot that opened at `now` opens again one week later, in any store,
    * with the same identifier and its window moved on by a week.
    */
  lemma WeekLaterOpening(st: Store, st': Store, course: Course, caller: Id, now: Instant, qr: string, qr': string)
    requires Open(st, Some(course), caller, now, Some(qr)).1.Opened?
    ensures var first := Open(st, Some(course), caller, now, Some(qr)).0.sessions[|st.sessions|];
            var again := Open(st', Some(course), caller, now + MsPerWeek, Some(qr'));
            && again.1.Opened?
            && again.0.sessions[|st'.sessions|].identifier == first.identifier
            && again.0.sessions[|st'.sessions|].startTime == first.startTime + MsPerWeek
            && again.0.sessions[|st'.sessions|].endTime == first.endTime + MsPerWeek
  {
    ResolveWeekly(course.schedule, now);
  }

  /**
    * The second week of a course. A session is opened for a slot at `now`;
    * one week later the same slot is opened again and gets the same
    * identifier. A student who marks inside the second window (which lies
    * after the first one's end) is refused by the handler's lookup, which
    * still reaches the first session.
    */
  lemma SecondWeekMarkFails(st: Store, course: Course, caller: Id, now: Instant,
                            qr1: string, qr2: string, student: Id, t: Instant)
    requires Open(st, Some(course), caller, now, Some(qr1)).1.Opened?
    requires FindSessionAsWritten(st.sessions,
               Open(st, Some(course), caller, now, Some(qr1)).0.sessions[|st.sessions|].identifier).None?
    requires Open(st, Some(course), caller, now, Some(qr1)).0.sessions[|st.sessions|].endTime < t
    ensures var st1 := Open(st, Some(course), caller, now, Some(qr1)).0;
            var second := Open(st1, Some(course), caller, now + MsPerWeek, Some(qr2));
            var id := st1.sessions[|st.sessions|].identifier;
            && second.1.Opened?
            && second.0.sessions[|st1.sessions|].identifier == id
            && MarkAsWritten(second.0, id, student, t).0 == NotOpen
  {
    var st1 := Open(st, Some(course), caller, now, Some(qr1)).0;
    var first := st1.sessions[|st.sessions|];
    WeekLaterOpening(st, st1, course, caller, now, qr1, qr2);
    assert st1.sessions == st.sessions + [first];
    FirstMatchAppended(st.sessions, first);
    var st2 := Open(st1, Some(course), caller, now + MsPerWeek, Some(qr2)).0;
    assert st2.sessions == st1.sessions + [st2.sessions[|st1.sessions|]];
    FirstMatchKept(st1.sessions, [st2.sessions[|st1.sessions|]], first.identifier);
    assert st2.sessions[|st.sessions|] == first;
  }

  /**
    * The same second week through the lookup of the latest session: a
    * listed student marking inside the second window is marked present.
    */
  lemma SecondWeekMarkCorrected(st: Store, course: Course, caller: Id, now: Instant,
                                qr1: string, qr2: string, i: nat, t: Instant)
    requires Linked(st)
    requires Open(st, Some(course), caller, now, Some(qr1)).1.Opened?
    requires i < |course.students|
    requires var first := Open(st, Some(course), caller, now, Some(qr1)).0.sessions[|st.sessions|];
             first.startTime + MsPerWeek <= t <= first.endTime + MsPerWeek
    ensures var st1 := Open(st, Some(course), caller, now, Some(qr1)).0;
            var second := Open(st1, Some(course), caller, now + MsPerWeek, Some(qr2));
            && second.1.Opened?
            && Mark(second.0, st1.sessions[|st.sessions|].identifier, course.students[i], t).0 == Marked
  {
    var st1 := Open(st, Some(course), caller, now, Some(qr1)).0;
    WeekLaterOpening(st, st1, course, caller, now, qr1, qr2);
    OpenThenMark(st1, course, caller, now + MsPerWeek, Some(qr2), i, t);
  }
}
