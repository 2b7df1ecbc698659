/**
  * The attendance-session lifecycle on an in-memory store: opening a session
  * with its roster of pending records and its two timers, the time-driven
  * sweeps (pending records to absent, sessions to inactive), and the
  * read-then-write mark-present transition. Every step is a function of the
  * store and the current instant.
  */
module Lifecycle {
  import opened Base
  import opened CourseModel
  import opened SessionModel
  import opened AttendanceModel
  import opened Schedule

  /**
    * The two jobs `POST /create` hands to node-cron for a session. Both fire
    * every minute from then on and are never stopped.
    */
  datatype Timer =
    | AbsentTimer(session: SessionKey, end: Instant)
    | InactiveTimer(session: SessionKey, end: Instant)

  datatype Store = Store(sessions: seq<Session>, records: seq<Record>, timers: seq<Timer>)

  /** Every record and every timer refers to a stored session. */
  predicate Linked(st: Store) {
    && (forall i :: 0 <= i < |st.records| ==> st.records[i].session < |st.sessions|)
    && (forall i :: 0 <= i < |st.timers| ==> st.timers[i].session < |st.sessions|)
  }

  /**
    * The record `insertMany` stores for one listed student: status
    * "pending" as given, `markedAt` left to its null default, the caller as
    * teacher.
    */
  function RosterEntry(courseId: Id, student: Id, key: SessionKey, now: Instant, teacher: Id): (r: Record)
    ensures r == Record(courseId, student, key, now, Pending, None, Some(teacher))
  {
    var made := CreateRecord(RecordInput(Some(courseId), Some(student), Some(key), Some(now),
                                         Some("pending"), None, Some(teacher)));
    assert made.Ok?;
    made.value
  }

  /** `course.students.map(...)`: one pending record per listed student, in list order. */
  function Roster(course: Course, key: SessionKey, now: Instant, teacher: Id): (r: seq<Record>)
    ensures |r| == |course.students|
    ensures forall i :: 0 <= i < |r| ==>
              r[i] == Record(course.id, course.students[i], key, now, Pending, None, Some(teacher))
  {
    seq(|course.students|, i requires 0 <= i < |course.students| =>
      RosterEntry(course.id, course.students[i], key, now, teacher))
  }

  /** Appending one session, and records and timers that all refer to it, keeps a store linked. */
  lemma LinkedAppend(st: Store, s: Session, records: seq<Record>, timers: seq<Timer>)
    requires Linked(st)
    requires forall i :: 0 <= i < |records| ==> records[i].session == |st.sessions|
    requires forall i :: 0 <= i < |timers| ==> timers[i].session == |st.sessions|
    ensures Linked(Store(st.sessions + [s], st.records + records, st.timers + timers))
  {
  }

  datatype OpenOutcome =
    | CourseNotFound                            // 404
    | Rejected(reason: Resolution)              // 400, one message per reason
    | QrFailed                                  // 500 "Failed to generate QR code"
    | SessionInvalid(fields: set<SessionField>) // the session save throws
    | Opened(session: SessionKey, absentSweepScheduled: bool)  // 201

  /** The session `new AttendanceSession({...})` builds for a window. */
  function SessionFor(course: Course, w: Resolution, now: Instant, qr: string): Result<Session, set<SessionField>>
    requires w.Window?
  {
    CreateSession(SessionInput(Some(course.id), Some(qr), Some(now), w.start, w.end, Some(true),
                               Some(SessionIdentifier(course.id, w.day, w.startText))))
  }

  /**
    * `POST /create/:courseId` by teacher `caller` at `now`. `course` is what
    * the course lookup returned and `qr` what the QR step produced (None
    * when it failed). The new session's `_id` is its position.
    */
  function Open(st: Store, course: Option<Course>, caller: Id, now: Instant, qr: Option<string>): (r: (Store, OpenOutcome))
    ensures course.None? ==> r == (st, CourseNotFound)
    ensures course.Some? && !Resolve(course.value.schedule, now).Window? ==>
              r == (st, Rejected(Resolve(course.value.schedule, now)))
    ensures course.Some? && Resolve(course.value.schedule, now).Window? && qr.None? ==> r == (st, QrFailed)
    ensures course.Some? && Resolve(course.value.schedule, now).Window? && qr.Some? ==>
              var w := Resolve(course.value.schedule, now);
              && (r.1.SessionInvalid? <==> w.start.None? || w.end.None?)
              && (r.1.Opened? <==> w.start.Some? && w.end.Some?)
              && (r.1.SessionInvalid? ==> r.0 == st)
              && (r.1.Opened? ==>
                    var key := |st.sessions|;
                    && r.1 == Opened(key, w.end.value > now)
                    && r.0.sessions == st.sessions + [Session(course.value.id, qr, now, w.start.value, w.end.value, true,
                                                              SessionIdentifier(course.value.id, w.day, w.startText))]
                    && r.0.records == st.records + Roster(course.value, key, now, caller)
                    && r.0.timers == st.timers + (if w.end.value > now then [AbsentTimer(key, w.end.value)] else [])
                                               + [InactiveTimer(key, w.end.value)])
    ensures Linked(st) ==> Linked(r.0)
  {
    if course.None? then (st, CourseNotFound)
    else
      var w := Resolve(course.value.schedule, now);
      if !w.Window? then (st, Rejected(w))
      else if qr.None? then (st, QrFailed)
      else
        var made := SessionFor(course.value, w, now, qr.value);
        if made.Err? then (st, SessionInvalid(made.error))
        else
          var key := |st.sessions|;
          var end := made.value.endTime;
          var timers := (if end > now then [AbsentTimer(key, end)] else []) + [InactiveTimer(key, end)];
          var next := Store(st.sessions + [made.value],
                            st.records + Roster(course.value, key, now, caller),
                            st.timers + timers);
          assert Linked(st) ==> Linked(next) by {
            if Linked(st) {
              LinkedAppend(st, made.value, Roster(course.value, key, now, caller), timers);
            }
          }
          (next, Opened(key, end > now))
  }

  /**
    * The absent job of a session ending at `end`, run at `now`: once `now`
    * is past the end, every pending record of that session becomes absent.
    */
  function AbsentSweep(records: seq<Record>, key: SessionKey, end: Instant, now: Instant): (r: seq<Record>)
    ensures |r| == |records|
    ensures forall i :: 0 <= i < |r| ==> r[i] == records[i].(status := r[i].status)
    ensures forall i :: 0 <= i < |r| ==>
              r[i].status == (if now > end && records[i].session == key && records[i].status == Pending
                              then Absent else records[i].status)
    ensures now > end ==> forall i :: 0 <= i < |r| && r[i].session == key ==> r[i].status != Pending
  {
    seq(|records|, i requires 0 <= i < |records| =>
      if now > end && records[i].session == key && records[i].status == Pending
      then records[i].(status := Absent) else records[i])
  }

  /** The inactive job of a session: `findByIdAndUpdate(key, { isActive: false })` once past the end. */
  function Deactivate(sessions: seq<Session>, key: SessionKey, end: Instant, now: Instant): (r: seq<Session>)
    ensures |r| == |sessions|
    ensures forall i :: 0 <= i < |r| ==> r[i] == sessions[i].(isActive := r[i].isActive)
    ensures forall i :: 0 <= i < |r| ==> (r[i].isActive <==> sessions[i].isActive && !(i == key && now > end))
  {
    if now > end && key < |sessions| then sessions[key := sessions[key].(isActive := false)] else sessions
  }

  /**
    * The global job: the active sessions whose end lies before `now`
    * become inactive, and no other session changes.
    */
  function GlobalSweep(sessions: seq<Session>, now: Instant): (r: seq<Session>)
    ensures |r| == |sessions|
    ensures forall i :: 0 <= i < |r| ==> r[i] == sessions[i].(isActive := r[i].isActive)
    ensures forall i :: 0 <= i < |r| ==> (r[i].isActive <==> sessions[i].isActive && sessions[i].endTime >= now)
    ensures forall i :: 0 <= i < |r| ==> (r[i] != sessions[i] <==> sessions[i].isActive && sessions[i].endTime < now)
  {
    seq(|sessions|, i requires 0 <= i < |sessions| =>
      if sessions[i].isActive && sessions[i].endTime < now then sessions[i].(isActive := false) else sessions[i])
  }

  /** The keys of the sessions the global job finds: active, and ended before `now`. */
  function Expired(sessions: seq<Session>, now: Instant): (r: seq<SessionKey>)
    ensures forall k: nat :: k in r <==> k < |sessions| && sessions[k].isActive && sessions[k].endTime < now
    decreases |sessions|
  {
    if |sessions| == 0 then []
    else
      var last := |sessions| - 1;
      Expired(sessions[..last], now)
      + (if sessions[last].isActive && sessions[last].endTime < now then [last] else [])
  }

  /** `updateMany({ _id: { $in: keys } }, { $set: { isActive: false } })`. */
  function DeactivateAll(sessions: seq<Session>, keys: seq<SessionKey>): (r: seq<Session>)
    ensures |r| == |sessions|
    ensures forall i :: 0 <= i < |r| ==> r[i] == sessions[i].(isActive := sessions[i].isActive && i !in keys)
  {
    seq(|sessions|, i requires 0 <= i < |sessions| =>
      if i in keys then sessions[i].(isActive := false) else sessions[i])
  }

  /** The global job as written, a find and then an update of what it found, is the sweep. */
  lemma ExpiredThenDeactivated(sessions: seq<Session>, now: Instant)
    ensures DeactivateAll(sessions, Expired(sessions, now)) == GlobalSweep(sessions, now)
    ensures |Expired(sessions, now)| == 0 ==> GlobalSweep(sessions, now) == sessions
  {
    var a, b := DeactivateAll(sessions, Expired(sessions, now)), GlobalSweep(sessions, now);
    assert forall i :: 0 <= i < |sessions| ==> a[i] == b[i];
    if |Expired(sessions, now)| == 0 {
      assert forall i :: 0 <= i < |sessions| ==> b[i] == sessions[i];
    }
  }

  /** One firing of a timer at `now`. */
  function Fire(st: Store, t: Timer, now: Instant): Store {
    match t
    case AbsentTimer(key, end) => st.(records := AbsentSweep(st.records, key, end, now))
    case InactiveTimer(key, end) => st.(sessions := Deactivate(st.sessions, key, end, now))
  }

  /** A timer that fires again at the same instant, or the global job run twice, changes nothing more. */
  lemma SweepsIdempotent(st: Store, t: Timer, now: Instant)
    ensures Fire(Fire(st, t, now), t, now) == Fire(st, t, now)
    ensures GlobalSweep(GlobalSweep(st.sessions, now), now) == GlobalSweep(st.sessions, now)
  {
    match t
    case AbsentTimer(key, end) =>
      var once := AbsentSweep(st.records, key, end, now);
      assert AbsentSweep(once, key, end, now) == once;
    case InactiveTimer(key, end) =>
      var once := Deactivate(st.sessions, key, end, now);
      assert Deactivate(once, key, end, now) == once;
  }

  /**
    * A later firing of the same timer finds nothing left to do either; and
    * a global run adds nothing to a later global run.
    */
  lemma SweepsSettle(st: Store, t: Timer, now: Instant, later: Instant)
    requires t.end < now <= later
    ensures Fire(Fire(st, t, now), t, later) == Fire(st, t, now)
    ensures GlobalSweep(GlobalSweep(st.sessions, now), later) == GlobalSweep(st.sessions, later)
  {
    match t
    case AbsentTimer(key, end) =>
      var once := AbsentSweep(st.records, key, end, now);
      assert AbsentSweep(once, key, end, later) == once;
    case InactiveTimer(key, end) =>
      var once := Deactivate(st.sessions, key, end, now);
      assert Deactivate(once, key, end, later) == once;
  }

  /** `AttendanceSession.findOne({ sessionIdentifier })` as written: the first session with it. */
  function FindSessionAsWritten(sessions: seq<Session>, identifier: string): (r: Option<nat>)
    ensures r.Some? ==> r.value < |sessions| && sessions[r.value].identifier == identifier
                        && forall j :: 0 <= j < r.value ==> sessions[j].identifier != identifier
    ensures r.None? <==> forall j :: 0 <= j < |sessions| ==> sessions[j].identifier != identifier
  {
    FindFirst(sessions, (s: Session) => s.identifier == identifier)
  }

  /** The session a mark is meant to reach: the most recently opened one with the identifier. */
  function FindSession(sessions: seq<Session>, identifier: string): (r: Option<nat>)
    ensures r.Some? ==> r.value < |sessions| && sessions[r.value].identifier == identifier
                        && forall j :: r.value < j < |sessions| ==> sessions[j].identifier != identifier
    ensures r.None? <==> forall j :: 0 <= j < |sessions| ==> sessions[j].identifier != identifier
    decreases |sessions|
  {
    if |sessions| == 0 then None
    else if sessions[|sessions| - 1].identifier == identifier then Some(|sessions| - 1)
    else FindSession(sessions[..|sessions| - 1], identifier)
  }

  /** Appending sessions does not move a first match that already exists. */
  lemma FirstMatchKept(sessions: seq<Session>, extra: seq<Session>, identifier: string)
    requires FindSessionAsWritten(sessions, identifier).Some?
    ensures FindSessionAsWritten(sessions + extra, identifier) == FindSessionAsWritten(sessions, identifier)
  {
    var j := FindSessionAsWritten(sessions, identifier).value;
    var all := sessions + extra;
    assert all[j] == sessions[j];
    var f := FindSessionAsWritten(all, identifier);
    assert f.Some? && f.value <= j;
    assert all[f.value] == sessions[f.value];
  }

  /** A session appended to sessions none of which carries its identifier is the first match of it. */
  lemma FirstMatchAppended(sessions: seq<Session>, s: Session)
    requires FindSessionAsWritten(sessions, s.identifier).None?
    ensures FindSessionAsWritten(sessions + [s], s.identifier) == Some(|sessions|)
  {
    var all := sessions + [s];
    assert forall j :: 0 <= j < |sessions| ==> all[j] == sessions[j];
    assert all[|sessions|] == s;
  }

  /** A session appended last is the latest match of its own identifier. */
  lemma LatestMatchIsLast(sessions: seq<Session>, s: Session)
    ensures FindSession(sessions + [s], s.identifier) == Some(|sessions|)
  {
  }

  /** `Attendance.findOne({ session, student })`: the first record of that session and student. */
  function FindRecord(records: seq<Record>, key: SessionKey, student: Id): (r: Option<nat>)
    ensures r.Some? ==> r.value < |records| && records[r.value].session == key && records[r.value].student == student
                        && forall j :: 0 <= j < r.value ==> !(records[j].session == key && records[j].student == student)
    ensures r.None? <==> forall j :: 0 <= j < |records| ==> !(records[j].session == key && records[j].student == student)
  {
    FindFirst(records, (x: Record) => x.session == key && x.student == student)
  }

  datatype MarkOutcome =
    | SessionNotFound   // 404 "Session not found"
    | NotOpen           // 403 "Attendance session is not active or out of allowed timeframe"
    | RecordNotFound    // 404 "Attendance record not found"
    | AlreadyMarked     // 400 "Attendance already marked"
    | Marked            // 200

  /** The mark window: active, and `startTime <= now <= endTime`. */
  predicate OpenAt(s: Session, now: Instant) {
    s.isActive && s.startTime <= now <= s.endTime
  }

  /**
    * `PUT /mark/:sessionIdentifier` once the session lookup gave `found`:
    * the window check, the record lookup, the pending check, then the one
    * field written. Only `status` changes; `markedAt` is never set.
    */
  function MarkWith(st: Store, found: Option<nat>, student: Id, now: Instant): (r: (MarkOutcome, seq<Record>))
    requires found.Some? ==> found.value < |st.sessions|
    ensures found.None? ==> r == (SessionNotFound, st.records)
    ensures found.Some? && !OpenAt(st.sessions[found.value], now) ==> r == (NotOpen, st.records)
    ensures found.Some? && OpenAt(st.sessions[found.value], now) ==>
              var k := FindRecord(st.records, found.value, student);
              && (k.None? ==> r == (RecordNotFound, st.records))
              && (k.Some? && st.records[k.value].status != Pending ==> r == (AlreadyMarked, st.records))
              && (k.Some? && st.records[k.value].status == Pending ==>
                    r == (Marked, st.records[k.value := st.records[k.value].(status := Present)]))
    ensures r.0 == Marked <==>
              found.Some? && OpenAt(st.sessions[found.value], now)
              && FindRecord(st.records, found.value, student).Some?
              && st.records[FindRecord(st.records, found.value, student).value].status == Pending
    ensures r.0 != Marked ==> r.1 == st.records
  {
    if found.None? then (SessionNotFound, st.records)
    else if !OpenAt(st.sessions[found.value], now) then (NotOpen, st.records)
    else
      var k := FindRecord(st.records, found.value, student);
      if k.None? then (RecordNotFound, st.records)
      else if st.records[k.value].status != Pending then (AlreadyMarked, st.records)
      else (Marked, st.records[k.value := st.records[k.value].(status := Present)])
  }

  /** Marking through the lookup the handler performs. */
  function MarkAsWritten(st: Store, identifier: string, student: Id, now: Instant): (r: (MarkOutcome, seq<Record>))
    ensures r.0 == SessionNotFound <==> forall j :: 0 <= j < |st.sessions| ==> st.sessions[j].identifier != identifier
    ensures r.0 != Marked ==> r.1 == st.records
  {
    MarkWith(st, FindSessionAsWritten(st.sessions, identifier), student, now)
  }

  /** Marking through the lookup of the latest session with the identifier. */
  function Mark(st: Store, identifier: string, student: Id, now: Instant): (r: (MarkOutcome, seq<Record>))
    ensures r.0 == SessionNotFound <==> forall j :: 0 <= j < |st.sessions| ==> st.sessions[j].identifier != identifier
    ensures r.0 != Marked ==> r.1 == st.records
  {
    MarkWith(st, FindSession(st.sessions, identifier), student, now)
  }

  /**
    * Once a student is marked on a found session, marking again on it
    * never succeeds and changes nothing, whichever lookup found it.
    */
  lemma MarkWithOnce(st: Store, found: Option<nat>, student: Id, now: Instant, later: Instant)
    requires found.Some? ==> found.value < |st.sessions|
    requires MarkWith(st, found, student, now).0 == Marked
    ensures var after := st.(records := MarkWith(st, found, student, now).1);
            MarkWith(after, found, student, later).0 in {AlreadyMarked, NotOpen}
            && MarkWith(after, found, student, later).1 == after.records
  {
    var k := FindRecord(st.records, found.value, student).value;
    var after := st.(records := MarkWith(st, found, student, now).1);
    assert after.records == st.records[k := st.records[k].(status := Present)];
    assert FindRecord(after.records, found.value, student) == Some(k) by {
      FindRecordOnStatusChange(st.records, k, Present, found.value, student);
    }
  }

  /** Through the handler's lookup, a second mark of the same student never succeeds and changes nothing. */
  lemma MarkAsWrittenOnce(st: Store, identifier: string, student: Id, now: Instant, later: Instant)
    requires MarkAsWritten(st, identifier, student, now).0 == Marked
    ensures var after := st.(records := MarkAsWritten(st, identifier, student, now).1);
            MarkAsWritten(after, identifier, student, later).0 in {AlreadyMarked, NotOpen}
            && MarkAsWritten(after, identifier, student, later).1 == after.records
  {
    MarkWithOnce(st, FindSessionAsWritten(st.sessions, identifier), student, now, later);
  }

  /** Through the latest-session lookup, a second mark of the same student never succeeds and changes nothing. */
  lemma MarkOnce(st: Store, identifier: string, student: Id, now: Instant, later: Instant)
    requires Mark(st, identifier, student, now).0 == Marked
    ensures var after := st.(records := Mark(st, identifier, student, now).1);
            Mark(after, identifier, student, later).0 in {AlreadyMarked, NotOpen}
            && Mark(after, identifier, student, later).1 == after.records
  {
    MarkWithOnce(st, FindSession(st.sessions, identifier), student, now, later);
  }

  /** Changing one record's status does not move any record lookup. */
  lemma FindRecordOnStatusChange(records: seq<Record>, k: nat, s: Status, key: SessionKey, student: Id)
    requires k < |records|
    ensures FindRecord(records[k := records[k].(status := s)], key, student) == FindRecord(records, key, student)
  {
    var changed := records[k := records[k].(status := s)];
    assert forall j :: 0 <= j < |records| ==>
             changed[j].session == records[j].session && changed[j].student == records[j].student;
    var a, b := FindRecord(changed, key, student), FindRecord(records, key, student);
    if a.Some? && b.Some? {
      assert !(a.value < b.value) && !(b.value < a.value);
    }
  }

  /**
    * What can happen to the store. `MarkEvent` is the mark handler as
    * written (first-match lookup); `MarkLatestEvent` is the same handler
    * with the latest-session lookup.
    */
  datatype Event =
    | OpenEvent(course: Option<Course>, caller: Id, now: Instant, qr: Option<string>)
    | MarkEvent(identifier: string, student: Id, now: Instant)
    | MarkLatestEvent(identifier: string, student: Id, now: Instant)
    | FireEvent(timer: nat, now: Instant)
    | SweepEvent(now: Instant)

  function Step(st: Store, e: Event): Store {
    match e
    case OpenEvent(course, caller, now, qr) => Open(st, course, caller, now, qr).0
    case MarkEvent(identifier, student, now) => st.(records := MarkAsWritten(st, identifier, student, now).1)
    case MarkLatestEvent(identifier, student, now) => st.(records := Mark(st, identifier, student, now).1)
    case FireEvent(t, now) => if t < |st.timers| then Fire(st, st.timers[t], now) else st
    case SweepEvent(now) => st.(sessions := GlobalSweep(st.sessions, now))
  }

  function Run(st: Store, events: seq<Event>): Store
    decreases |events|
  {
    if |events| == 0 then st else Step(Run(st, events[..|events| - 1]), events[|events| - 1])
  }

  /**
    * A step only appends records or moves a pending record to present or
    * absent; every other recorded field stays as it was.
    */
  predicate Advances(before: seq<Record>, after: seq<Record>) {
    |before| <= |after|
    && forall i :: 0 <= i < |before| ==>
         after[i] == before[i]
         || (before[i].status == Pending && after[i].status in {Present, Absent}
             && after[i] == before[i].(status := after[i].status))
  }

  lemma StepAdvances(st: Store, e: Event)
    ensures Advances(st.records, Step(st, e).records)
    ensures Linked(st) ==> Linked(Step(st, e))
  {
    match e
    case OpenEvent(course, caller, now, qr) =>
    case MarkEvent(identifier, student, now) =>
    case MarkLatestEvent(identifier, student, now) =>
    case FireEvent(t, now) =>
    case SweepEvent(now) =>
  }

  /**
    * In any run of openings, marks and sweeps, a record that is no longer
    * pending is never changed again: neither mark-present nor the absent job
    * touches it, and nothing ever sets it back to pending.
    */
  lemma {:induction false} ResolvedStaysResolved(st: Store, events: seq<Event>, i: nat)
    requires i < |st.records| && st.records[i].status != Pending
    ensures i < |Run(st, events).records| && Run(st, events).records[i] == st.records[i]
    decreases |events|
  {
    if |events| > 0 {
      var mid := Run(st, events[..|events| - 1]);
      ResolvedStaysResolved(st, events[..|events| - 1], i);
      StepAdvances(mid, events[|events| - 1]);
    }
  }

  /** A run over a linked store leaves it linked. */
  lemma {:induction false} RunKeepsLinked(st: Store, events: seq<Event>)
    requires Linked(st)
    ensures Linked(Run(st, events))
    decreases |events|
  {
    if |events| > 0 {
      RunKeepsLinked(st, events[..|events| - 1]);
      StepAdvances(Run(st, events[..|events| - 1]), events[|events| - 1]);
    }
  }
}
