/**
  * Resolving "open a session now" against a course's weekly schedule: the
  * entry for today's weekday, its two times placed on today's date, the
  * five-minute early opening, and the session identifier built from the slot.
  */
module Schedule {
  import opened Base
  import opened Clock
  import opened CourseModel

  /** A session may be opened this long before the lecture starts. */
  const EarlyOpening: int := 5 * MsPerMinute

  const MsPerWeek: int := 7 * MsPerDay

  datatype Resolution =
    | NoClassToday(day: string)   // 400 "No class scheduled for <day>. ..."
    | IncompleteSchedule          // 400 "Schedule for the day is incomplete. ..."
    | TooEarly                    // 400 "... more than 5 minutes before the lecture time."
    | TooLate                     // 400 "... after the lecture has ended."
    | Window(day: string, startText: string, start: Option<Instant>, end: Option<Instant>)

  /** `schedule.find((item) => item.day === day)`. */
  function FindEntry(schedule: seq<ScheduleEntry>, day: string): (r: Option<nat>)
    ensures r.Some? ==> r.value < |schedule| && schedule[r.value].day == day
                        && forall j :: 0 <= j < r.value ==> schedule[j].day != day
    ensures r.None? <==> forall j :: 0 <= j < |schedule| ==> schedule[j].day != day
  {
    FindFirst(schedule, (e: ScheduleEntry) => e.day == day)
  }

  /**
    * The instant at the `"HH:MM"` of `text` on the day of `now`, seconds and
    * milliseconds zero; None for the Invalid Date a NaN part produces.
    */
  function LectureInstant(now: Instant, text: string): Option<Instant>
  {
    match ParseClock(text)
    case None => None
    case Some((h, m)) => Some(AtClock(now, h, m))
  }

  /** `currentTime.isBefore(start.subtract(5, "minute"))`; false against an Invalid Date. */
  predicate OpensTooEarly(now: Instant, start: Option<Instant>) {
    start.Some? && now < start.value - EarlyOpening
  }

  /** `currentTime.isAfter(end)`; false against an Invalid Date. */
  predicate EndedBefore(now: Instant, end: Option<Instant>) {
    end.Some? && now > end.value
  }

  /**
    * The checks of `POST /create/:courseId` up to the identifier, in order:
    * an entry for today, both of its times present, not too early, not
    * too late. An unparsable time gets through both time checks (a
    * comparison with an Invalid Date is false) and reaches the session save.
    */
  function Resolve(schedule: seq<ScheduleEntry>, now: Instant): (r: Resolution)
    ensures r.NoClassToday? <==> FindEntry(schedule, DayName(now)).None?
    ensures r.NoClassToday? ==> r.day == DayName(now)
    ensures FindEntry(schedule, DayName(now)).Some? ==>
              var e := schedule[FindEntry(schedule, DayName(now)).value];
              var start, end := LectureInstant(now, e.startTime), LectureInstant(now, e.endTime);
              && (r == IncompleteSchedule <==> e.startTime == "" || e.endTime == "")
              && (r == TooEarly <==> e.startTime != "" && e.endTime != "" && OpensTooEarly(now, start))
              && (r == TooLate <==>
                    e.startTime != "" && e.endTime != "" && !OpensTooEarly(now, start) && EndedBefore(now, end))
              && (r.Window? <==>
                    e.startTime != "" && e.endTime != "" && !OpensTooEarly(now, start) && !EndedBefore(now, end))
              && (r.Window? ==> r == Window(DayName(now), e.startTime, start, end))
  {
    var day := DayName(now);
    var k := FindEntry(schedule, day);
    if k.None? then NoClassToday(day)
    else
      var e := schedule[k.value];
      if e.startTime == "" || e.endTime == "" then IncompleteSchedule
      else
        var start, end := LectureInstant(now, e.startTime), LectureInstant(now, e.endTime);
        if OpensTooEarly(now, start) then TooEarly
        else if EndedBefore(now, end) then TooLate
        else Window(day, e.startTime, start, end)
  }

  /**
    * For today's entry with well-formed times `"HH:MM"`, the window is
    * today's midnight plus the written hours and minutes, and a session
    * opens exactly when start - 5 minutes <= now <= end, both bounds
    * included.
    */
  lemma ResolveWellFormed(schedule: seq<ScheduleEntry>, now: Instant, h1: nat, m1: nat, h2: nat, m2: nat)
    requires h1 < 24 && m1 < 60 && h2 < 24 && m2 < 60
    requires FindEntry(schedule, DayName(now)).Some?
    requires var e := schedule[FindEntry(schedule, DayName(now)).value];
             e.startTime == ClockText(h1, m1) && e.endTime == ClockText(h2, m2)
    ensures var start := StartOfDay(now) + h1 * MsPerHour + m1 * MsPerMinute;
            var end := StartOfDay(now) + h2 * MsPerHour + m2 * MsPerMinute;
            && (Resolve(schedule, now).Window? <==> start - EarlyOpening <= now <= end)
            && (Resolve(schedule, now) == TooEarly <==> now < start - EarlyOpening)
            && (Resolve(schedule, now) == TooLate <==> start - EarlyOpening <= now && end < now)
            && (Resolve(schedule, now).Window? ==>
                  Resolve(schedule, now).start == Some(start) && Resolve(schedule, now).end == Some(end))
  {
    ParseClockText(h1, m1);
    ParseClockText(h2, m2);
  }

  /**
    * `${courseId}_${currentDay}_${startTime}`: the same course, weekday and
    * written start time always give the same identifier.
    */
  function SessionIdentifier(courseId: Id, day: string, startText: string): (id: string)
    ensures |id| == |courseId| + |day| + |startText| + 2
  {
    courseId + "_" + day + "_" + startText
  }

  /** With no `_` inside its parts, an identifier splits back into course id, day and start time. */
  lemma {:induction false} IdentifierParts(courseId: Id, day: string, startText: string)
    requires '_' !in courseId && '_' !in day && '_' !in startText
    ensures Split(SessionIdentifier(courseId, day, startText), '_') == [courseId, day, startText]
  {
    var rest := day + "_" + startText;
    assert SessionIdentifier(courseId, day, startText) == courseId + ['_'] + rest;
    assert rest == day + ['_'] + startText;
    SplitAfterField(courseId, '_', rest);
    SplitAfterField(day, '_', startText);
    SplitNoSeparator(startText, '_');
  }

  /** Distinct slots of courses whose ids hold no `_` have distinct identifiers. */
  lemma IdentifierInjective(c1: Id, d1: string, s1: string, c2: Id, d2: string, s2: string)
    requires '_' !in c1 && '_' !in d1 && '_' !in s1 && '_' !in c2 && '_' !in d2 && '_' !in s2
    requires SessionIdentifier(c1, d1, s1) == SessionIdentifier(c2, d2, s2)
    ensures c1 == c2 && d1 == d2 && s1 == s2
  {
    IdentifierParts(c1, d1, s1);
    IdentifierParts(c2, d2, s2);
  }

  /** A resolution seen a week later: the same answer, its instants moved on by a week. */
  function Shifted(r: Resolution, delta: int): Resolution {
    match r
    case Window(day, text, start, end) =>
      Window(day, text,
             if start.Some? then Some(start.value + delta) else None,
             if end.Some? then Some(end.value + delta) else None)
    case _ => r
  }

  lemma WeekLater(now: Instant)
    ensures DayName(now + MsPerWeek) == DayName(now)
    ensures forall text :: LectureInstant(now + MsPerWeek, text) ==
              (if LectureInstant(now, text).Some? then Some(LectureInstant(now, text).value + MsPerWeek) else None)
  {
    assert (now + MsPerWeek) / MsPerDay == now / MsPerDay + 7;
  }

  /**
    * The schedule repeats every week: one week later the same checks give
    * the same answer, and a session opened then carries the same identifier
    * as the one opened now.
    */
  lemma ResolveWeekly(schedule: seq<ScheduleEntry>, now: Instant)
    ensures Resolve(schedule, now + MsPerWeek) == Shifted(Resolve(schedule, now), MsPerWeek)
  {
    WeekLater(now);
  }
}
