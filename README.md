# Attendance sessions, courses and accounts: a Dafny model

This project models the server of a classroom attendance system. The model has four parts:

- **Sessions.** A teacher opens an attendance session for a scheduled lecture of a course, during a window around the lecture's start and end. Opening one creates a "pending" record for every student the course lists. A student marks themself present through the session identifier while the session is active and inside its window. Timers mark the pending records absent once the lecture has ended, and mark the session inactive.
- **Courses.** The model covers course creation, per-department enrolment, owner-or-admin update and delete, and the per-lecture-date teacher report.
- **Accounts.** The model covers registration with its unique-id format, login, and the profile merge.
- **Access.** The model covers bearer-token extraction and the role gates.

Each collection of the document store is a sequence in insertion order: `findOne` returns the first match and `find` returns the matches in order. A session's `_id` is its position in the sessions collection. Time is an integer count of milliseconds on the server's clock:

- the weekday is `(t / 86400000 + 4) % 7`;
- setting "HH:MM" on a day, with seconds and milliseconds zeroed, is that day's midnight plus the hours and minutes.

`Number()` on a field of the `"HH:MM".split(":")` result gives:

- 0 for the empty string;
- the value of a string of digits;
- NaN for anything else.

A NaN hour or minute makes an Invalid Date. Both `isBefore` and `isAfter` are false against an Invalid Date, so opening passes the time checks and then the session save fails (`SessionInvalid`; the store is unchanged, and the handler sends no response, see "## Left out").

Some things are given as inputs or parameters:

- The current instant.
- The QR code (`None` when generating it failed).
- The draw of `Math.random`.
- The salt of bcrypt.
- JWT verification (a function from token to user id).
- The ids of new documents.
- The course of an attendance route. `Routes/AttendanceRoute.js` uses `Course` without importing it (lines 1-13), so every attendance handler that touches courses would throw a ReferenceError as written. The model reads the course collection as that model would answer.

`Routes/Course.js` imports its models from `../models/` in lower case (lines 3-4). This works on a case-insensitive file system only; the model assumes it resolves.

Registration in `Routes/Auth.js` enrols a student in the department's courses before the user is saved (lines 79-101). If the save then fails, the enrolments stay, and the model keeps them too.

The system's design description and the code differ in several places. The model follows the code:

- The design asks for a session identifier with extra entropy, so that a reopened slot gets a new one. The code builds it from course, weekday and start time only (see "## Findings").
- The design has face descriptors copied into each record, and a face-verification path when marking. The code copies no descriptor and verifies no face.
- The design asks for marking to be one conditional update. The code reads the record, checks it is pending, then writes it.
- The design says each (session, student) pair has exactly one record. The code does not enforce this.
- The design's example rejects opening a 09:00 lecture at 08:56 as too early. In the code, 08:56 is not before 08:55, so opening succeeds (`Schedule.ResolveWellFormed`).

Modules, following the source layout:

- `Base`, `Clock`: options and results, `split`/join, decimal numerals, the calendar arithmetic that dayjs performs.
- `UserModel`, `CourseModel`, `SessionModel`, `AttendanceModel`: the schemas, their validators and defaults, and the queries on each collection.
- `Database`: the `Db` class holding the collections and the scheduled timers.
- `AuthMiddleware`: `auth`, `isTeacher`, `isAdmin`.
- `AuthRoutes`, `CourseRoutes`, `DateReport`: the account and course routers and the report aggregation.
- `Schedule`, `Lifecycle`, `Summaries`, `AttendanceRoutes`, `WeeklyMarking`: the attendance router. This covers schedule resolution, opening, the timers and the global job, marking, the summaries, and the student's course view. It also includes the lemmas that relate marking to sessions opened week after week.

## Model

| member | source | states |
|---|---|---|
| Base.Split | Routes/AttendanceRoute.js:150-151 | `split` gives at least one field and no field holds the separator |
| Base.JoinSplit | Routes/AttendanceRoute.js:150-151 | joining the fields of a split with the separator gives the string back |
| Base.SplitNoSeparator | Middleware/AuthMiddleware.js:13 | a string without the separator splits into itself alone |
| Base.SplitAfterField | Routes/AttendanceRoute.js:150-151 | a field followed by the separator splits off as the first field, and the rest splits on its own |
| Base.SplitFieldCount | Middleware/AuthMiddleware.js:13 | there is a second field iff the separator occurs |
| Base.DigitChar | Routes/Auth.js:20-21 | a digit below ten is written as a digit character |
| Base.Numeral | Routes/Auth.js:20-21 | the decimal text of a number is non-empty, all digits, with no leading zero |
| Base.NumeralRoundTrip | Routes/Auth.js:20-21 | the decimal text of n reads back as n |
| Base.NumeralLength | Routes/Auth.js:20-21 | a number in [10^(k-1), 10^k) has k digits |
| Base.NumeralMagnitude | Routes/Auth.js:20-21 | conversely, a numeral of k characters renders a number below 10^k, and at least 10^(k-1) when k > 1; with `NumeralLength` the length and the decade determine each other |
| Clock.Weekday | Routes/AttendanceRoute.js:131-132 | the weekday is one of seven |
| Clock.DayName | Routes/AttendanceRoute.js:131-132 | `format("dddd")` is one of the seven English day names, none containing `_` |
| Clock.StartOfDay | Routes/AttendanceRoute.js:153-162 | the day's midnight is at most t, within a day of it, on the same day |
| Clock.AtClock | Routes/AttendanceRoute.js:153-162 | the set instant is a whole minute; for an hour below 24 and a minute below 60 it lies on the same day at exactly that hour and minute |
| Clock.TwoDigits | Routes/AttendanceRoute.js:150-151 | a number below 100 is written as two digits without `:` |
| Clock.ParseClockText | Routes/AttendanceRoute.js:150-151 | splitting "HH:MM" and applying `Number` to each part gives back the hour and the minute |
| Clock.TwoDigitValue | Routes/AttendanceRoute.js:150-151 | `Number` of a two-digit text is its value |
| UserModel.ValidUserMeaning | Models/User.js:6-38 | a user passes validation iff the names, email, password and unique id are non-empty and the role is "student" or "teacher"; a student also needs a department, a face image and descriptors |
| UserModel.HashOnSaveMeaning | Models/User.js:48-57 | a plain password is hashed on save and a stored hash is kept; afterwards a candidate matches iff it is the plain password that was set; saving again changes nothing |
| UserModel.FindByEmail | Routes/Auth.js:57-58 | the lookup finds a user with that email, or reports that none has it |
| UserModel.FindUser | Middleware/AuthMiddleware.js:15 | `findById` finds the user with that id, or reports that none has it |
| UserModel.InsertUser | Routes/Auth.js:100-101 | the save succeeds iff the hashed user is valid and its email and unique id are new; it then appends the user and keeps both unique indexes |
| UserModel.UpdateUser | Routes/Auth.js:205 | re-saving user k succeeds iff it is valid and no other user shares its email or unique id; it then replaces entry k and keeps both unique indexes |
| CourseModel.ValidCourseFields | Models/Course.js:5-21 | a course passes validation iff name, code, teacher and every schedule entry's day, start and end are non-empty |
| CourseModel.CoursesWhere | Routes/Course.js:18 | `Course.find` returns exactly the courses that match; it never returns more than exist, keeps ids distinct, and returns everything for the empty filter |
| Base.FindFirst | Routes/AttendanceRoute.js:357 | the insertion-order first element satisfying a condition, or none exactly when no element does |
| CourseModel.FindCourse | Routes/Course.js:265-268 | `findById` returns the first course with the id, or none exists |
| CourseModel.FindDepartment | Routes/Course.js:64-67 | `Department.findById` returns a department with the id, or none exists |
| CourseModel.Populated | Routes/Auth.js:80-82 | populating a department's course list keeps exactly the ids of existing courses |
| CourseModel.Enroll | Routes/Course.js:238-244 | enrolling keeps the number of courses |
| CourseModel.EnrollMeaning | Routes/Course.js:238-244 | each course listed by the department gains the student at the end of its list unless the student is already there; every other course is unchanged |
| CourseModel.EnrollIdempotent | Routes/Course.js:238-244 | enrolling the same student in the same courses twice is the same as once |
| SessionModel.CreateSession | Models/AttendanceSession.js:3-15 | a session saves iff course, lecture date, start, end and a non-empty identifier are given; the fields are kept, `isActive` defaults to true and `qrCode` is optional |
| AttendanceModel.ParseStatus | Models/Attendance.js:21-26 | a status text is accepted iff it names one of pending, present, absent, late |
| AttendanceModel.StatusNameRoundTrip | Models/Attendance.js:21-26 | every status's name parses back to that status |
| AttendanceModel.CreateRecord | Models/Attendance.js:3-38 | a record saves iff course, student, session and lecture date are given and any status is in the enum; the status defaults to pending and `markedAt` to null; the teacher is optional |
| AuthMiddleware.BearerToken | Middleware/AuthMiddleware.js:13 | there is a token iff the header contains a space, and the token contains no space |
| AuthMiddleware.BearerTokenOf | Middleware/AuthMiddleware.js:13 | for "scheme token …" the token is exactly the second space-separated field |
| AuthMiddleware.Authenticate | Middleware/AuthMiddleware.js:5-27 | no header, or one not starting with "Bearer", gives "no token"; an empty or unverifiable token gives "token failed"; otherwise the request carries the user with the verified id, or no user |
| AuthMiddleware.NoValidAdmin | Middleware/AuthMiddleware.js:38-45 | no user that passes the schema's role enum passes `isAdmin` |
| AuthRoutes.GenerateUniqueId | Routes/Auth.js:18-22 | the id is six characters, "B" for a student and "S" otherwise, then a five-digit number 10000 + draw in [10000, 99999] |
| AuthRoutes.UniqueIdInjective | Routes/Auth.js:18-22 | equal ids come from the same draw and the same student-or-not role |
| AuthRoutes.RegisterRejection | Routes/Auth.js:39-60 | rejections come in order: missing required field; then a student without face image or descriptors; then an email that is already registered |
| AuthRoutes.NewUser | Routes/Auth.js:66-76 | the new user starts with no courses and the plain password; the department is the given one or null; face data is kept for students only |
| AuthRoutes.Register | Routes/Auth.js:25-118 | a rejected request changes nothing; a student with an unknown department gets "Invalid department"; a student with a known one is set-inserted into each existing department course, and the `courses` of the saved user are those ids; then the save appends the user or fails |
| AuthRoutes.RegisteredStudentEnrolled | Routes/Auth.js:89-97 | after registration a course lists the student iff it did already or the department lists it |
| AuthRoutes.Login | Routes/Auth.js:121-163 | missing fields give 400; an unknown email and a wrong password give the same "Invalid credentials"; success returns the stored user whose password matches |
| AuthRoutes.MergeProfileMeaning | Routes/Auth.js:192-205 | each field takes the new value when truthy and keeps the old one otherwise; a given password is what later matches; an absent one keeps the stored hash; nothing else changes; merging again changes nothing |
| AuthRoutes.StudentCanBecomeTeacher | Routes/Auth.js:187-205 | a valid student who sends only `role: "teacher"` is saved as a valid teacher |
| AuthRoutes.UpdateProfile | Routes/Auth.js:183-220 | an unknown caller gets 404; otherwise the merged user is saved at the caller's entry or the save fails with nothing changed |
| CourseRoutes.ListCourses | Routes/Course.js:175-199 | `GET /` answers "No courses found" iff the caller sees no course; otherwise exactly the courses visible to the caller's role, and all of them for an admin |
| CourseRoutes.StudentCourses | Routes/Course.js:12-36 | 404 iff the caller is in no course's student list; otherwise exactly those courses |
| CourseRoutes.TeacherCourses | Routes/Course.js:92-109 | 404 iff the caller teaches no course; otherwise exactly those courses |
| CourseRoutes.CreateDecision | Routes/Course.js:53-81 | outcomes come in order: a falsy field; then an unknown department; then an existing code; then schema failure; success builds the course from the request with the caller as teacher |
| CourseRoutes.CreateCourse | Routes/Course.js:39-91 | a refused creation changes nothing; success appends the course, pushes its id onto the department's `courses`, and keeps codes and ids unique |
| CourseRoutes.RegisterForDepartment | Routes/Course.js:220-254 | checks come in order: missing department id; then unknown department; otherwise every department course is enrolled one by one and the caller's `courses` become the department's course ids |
| CourseRoutes.RegistrationMeaning | Routes/Course.js:238-247 | after `/register` every department course lists the student; a course outside the department, or one already listing the student, is unchanged; a list grows by at most the student; registering again changes nothing |
| CourseRoutes.OwnerOnlyBehindTeacherGate | Routes/Course.js:270-275 | behind `isTeacher`, the owner-or-admin check admits exactly the course's teacher |
| CourseRoutes.MergeCourseMeaning | Routes/Course.js:277-280 | name, schedule, start date and duration take the new value when truthy and keep the old one otherwise; nothing else changes; merging again changes nothing |
| CourseRoutes.UpdateCourse | Routes/Course.js:257-285 | an unknown course gets "Course not found"; a caller who is neither owner nor admin is refused; otherwise the merged course replaces the stored one when it validates; codes and ids stay unique |
| CourseRoutes.DeleteCourse | Routes/Course.js:288-310 | an unknown course gets "Course not found"; a caller who is neither owner nor admin is refused; otherwise the course is removed |
| CourseRoutes.DeletedCourseDropsOut | Routes/Course.js:307 | after deletion no course has that id, and populating any id list drops exactly that id |
| CourseRoutes.ReportRecords | Routes/Course.js:121 | the `$match` stage keeps exactly the records of the course whose teacher is the caller |
| CourseRoutes.ReportRecordsCount | Routes/Course.js:121-131 | the `$match` stage keeps every matching record with its multiplicity: counting a date and status among its output counts exactly the stored records of that course, teacher, date and status |
| CourseRoutes.TeacherReport | Routes/Course.js:111-172 | one report per course the caller teaches, with name, code and the length of the student list; its rows ascend by date, cover exactly the matched records' dates, and count each date's present and absent records |
| CourseRoutes.TeacherReportCounts | Routes/Course.js:111-172 | each row of a course's report counts exactly the caller's stored present (and absent) records of that course on that date |
| DateReport.CountsOffDates | Routes/Course.js:122-145 | a date without a row counts zero |
| DateReport.CountsOfRow | Routes/Course.js:122-154 | in ascending rows a date's counts are those of its one row |
| DateReport.AddToDateMeaning | Routes/Course.js:122-145 | counting one more record keeps the rows ascending, adds its date, and bumps only that date's present or absent count |
| DateReport.ByDate | Routes/Course.js:122-154 | the grouping gives rows ascending by date, one per lecture date of the records, each counting that date's present and absent records |
| DateReport.ByDateRows | Routes/Course.js:122-154 | each row of the grouping holds the counts of its own date |
| DateReport.ReportDetermined | Routes/Course.js:122-154 | two row lists that both fit that description are equal, so the answer does not depend on record order |
| Schedule.FindEntry | Routes/AttendanceRoute.js:134 | `schedule.find` returns the first entry for the day, or none exists |
| Schedule.Resolve | Routes/AttendanceRoute.js:134-178 | checks come in order, each with its own outcome: no entry for today; then a missing start or end; then more than five minutes early; then after the end; an unparsable time passes both time checks |
| Schedule.ResolveWellFormed | Routes/AttendanceRoute.js:150-178 | for written times HH:MM the window is today's midnight plus those hours and minutes, and opening is allowed iff start - 5 min <= now <= end, both bounds included |
| Schedule.SessionIdentifier | Routes/AttendanceRoute.js:180 | the identifier's length is the three parts plus two separators; with `Schedule.IdentifierParts` and `Base.JoinSplit` it is exactly course id, day name and start text joined by `_`, when no part contains `_` |
| Schedule.IdentifierParts | Routes/AttendanceRoute.js:180 | with no `_` in its parts, the identifier splits back into course id, day and start text |
| Schedule.IdentifierInjective | Routes/AttendanceRoute.js:180 | such identifiers are equal only for the same course, day and start text |
| Schedule.WeekLater | Routes/AttendanceRoute.js:131-162 | a week later the day name is the same and every set time moves by a week |
| Schedule.ResolveWeekly | Routes/AttendanceRoute.js:131-180 | a week later the checks give the same answer with the window moved by a week, so reopening the slot yields the same identifier |
| Lifecycle.RosterEntry | Routes/AttendanceRoute.js:204-211 | a roster record is pending, of that course, student and session, dated now, with the caller as teacher and `markedAt` null |
| Lifecycle.Roster | Routes/AttendanceRoute.js:204-213 | the roster has one such record per listed student, in list order |
| Lifecycle.Open | Routes/AttendanceRoute.js:123-263 | outcomes come in order: no course; then a schedule rejection; then a QR failure; then an unparsable time; once every check passes the session is opened, and success appends one active session with the computed window and identifier and exactly the roster; it schedules the absent timer only when the end is still ahead, and always the inactive timer; the store stays linked |
| Lifecycle.AbsentSweep | Routes/AttendanceRoute.js:223-227 | once past the end, exactly that session's pending records become absent; only status changes |
| Lifecycle.Deactivate | Routes/AttendanceRoute.js:238-243 | once past the end, exactly that session becomes inactive |
| Lifecycle.GlobalSweep | Routes/AttendanceRoute.js:273-283 | exactly the active sessions that ended before now become inactive; nothing else changes |
| Lifecycle.Expired | Routes/AttendanceRoute.js:273-276 | the query finds exactly the active sessions that ended before now |
| Lifecycle.DeactivateAll | Routes/AttendanceRoute.js:280-283 | `updateMany` with `$in` sets exactly the listed sessions inactive |
| Lifecycle.ExpiredThenDeactivated | Routes/AttendanceRoute.js:267-290 | the job's find-then-update is the global sweep, and it is a no-op when the find is empty |
| Lifecycle.SweepsIdempotent | Routes/AttendanceRoute.js:220-283 | a timer firing twice at once, or the global job run twice, equals running it once |
| Lifecycle.SweepsSettle | Routes/AttendanceRoute.js:220-283 | after a firing past the end, later firings of the same timer change nothing more; a global run adds nothing to a later global run, which alone gives the same sessions |
| Lifecycle.FindSessionAsWritten | Routes/AttendanceRoute.js:357 | `findOne({ sessionIdentifier })` returns the first session with the identifier, or none exists |
| Lifecycle.FindSession | Routes/AttendanceRoute.js:357 | the corrected lookup returns the latest session with the identifier, or none exists |
| Lifecycle.FirstMatchKept | Routes/AttendanceRoute.js:357 | appending sessions never moves a first match that already exists |
| Lifecycle.FirstMatchAppended | Routes/AttendanceRoute.js:357 | a session appended to sessions that carry no copy of its identifier becomes the first match of that identifier |
| Lifecycle.FindRecord | Routes/AttendanceRoute.js:375-378 | `findOne({ session, student })` returns the first such record, or none exists |
| Lifecycle.MarkWith | Routes/AttendanceRoute.js:357-388 | checks come in order: no session; then inactive or outside [start, end] inclusive; then no record; then not pending; marking happens iff all pass, and then only that record's status becomes present |
| Lifecycle.MarkAsWritten | Routes/AttendanceRoute.js:357-388 | marking through the handler's first-match lookup: "Session not found" iff no session carries the identifier, and records change only when the answer is "marked" |
| Lifecycle.Mark | Routes/AttendanceRoute.js:357-388 | marking through the latest-session lookup, with the same not-found condition and the same frame |
| Lifecycle.MarkWithOnce | Routes/AttendanceRoute.js:375-388 | once a student is marked on a found session, marking again on it never succeeds and changes nothing |
| Lifecycle.MarkAsWrittenOnce | Routes/AttendanceRoute.js:357-388 | through the handler's first-match lookup, a student marked once is never marked again and the second attempt changes nothing |
| Lifecycle.MarkOnce | Routes/AttendanceRoute.js:357-388 | the same through the latest-session lookup |
| Lifecycle.FindRecordOnStatusChange | Routes/AttendanceRoute.js:375-388 | changing a record's status does not move any record lookup |
| Lifecycle.StepAdvances | Routes/AttendanceRoute.js:192-388 | every opening, mark (through the handler's first-match lookup or through the latest-session lookup), timer or global run only appends records or moves a pending record to present or absent; the store stays linked |
| Lifecycle.ResolvedStaysResolved | Routes/AttendanceRoute.js:220-388 | in any run of events, with marks through either lookup, a record that is no longer pending is never changed again |
| Lifecycle.RunKeepsLinked | Routes/AttendanceRoute.js:192-290 | every record and timer keeps referring to a stored session |
| Summaries.Count | Routes/AttendanceRoute.js:40-47 | a count never exceeds the number of records |
| Summaries.CountAddCourse | Routes/AttendanceRoute.js:39-50 | counting over one more course id adds that course's own count |
| Summaries.OverCoursesCounts | Routes/AttendanceRoute.js:39-50 | over courses with distinct ids, the sum of per-course counts counts every selected record of those courses once |
| Summaries.CountNone | Routes/AttendanceRoute.js:39-50 | nothing is counted over no course |
| Summaries.ClassesByStatus | Routes/AttendanceRoute.js:89-98 | the class count is the sum of the pending, present, absent and late counts |
| Summaries.RecordsOf | Routes/AttendanceRoute.js:83-86 | `Attendance.find({ student, course })` returns exactly those records, as many as the count |
| Summaries.RecordsOfCount | Routes/AttendanceRoute.js:83-98 | counting a status among the found records is counting it among all records |
| Summaries.CourseIdsWhere | Routes/AttendanceRoute.js:34 | the ids of the found courses are the ids of the courses matching the filter |
| Summaries.OverMatching | Routes/AttendanceRoute.js:34-50 | over the courses a filter finds (ids distinct), the per-course counts add up to the count over the ids of every matching course |
| Summaries.CountPrefix | Routes/AttendanceRoute.js:90-98 | a prefix of the records never counts more |
| Summaries.OverCoursesPrefix | Routes/AttendanceRoute.js:81-99 | a prefix of the courses never adds up to more |
| Summaries.OverCoursesStep | Routes/AttendanceRoute.js:39-50 | one more course adds its own count |
| Summaries.NothingWhere | Routes/AttendanceRoute.js:68-72 | a course query finds nothing iff no course matches |
| AttendanceRoutes.TotalCourses | Routes/AttendanceRoute.js:16-25 | counts the caller's courses: at most all courses, and zero iff the caller teaches none |
| AttendanceRoutes.TeacherSummary | Routes/AttendanceRoute.js:28-57 | the totals are the per-course present and absent counts, added up; with distinct course ids they are all present and all absent records of the caller's courses |
| AttendanceRoutes.TallyEntries | Routes/AttendanceRoute.js:90-98 | the loop hits `totalLate` iff a record is late; otherwise it counts the present and the absent records |
| AttendanceRoutes.StudentSummary | Routes/AttendanceRoute.js:59-116 | 404 iff the caller is in no course; failure iff one of their records in those courses is late; otherwise classes, present and absent are the caller's records, present and absent records over those courses |
| AttendanceRoutes.OpenSession | Routes/AttendanceRoute.js:119-263 | the store and outcome are those of `Lifecycle.Open`, which keeps the store linked |
| AttendanceRoutes.FireTimer | Routes/AttendanceRoute.js:220-250 | a scheduled job running at now changes the store as `Lifecycle.Fire` says |
| AttendanceRoutes.SweepExpired | Routes/AttendanceRoute.js:267-290 | the global job leaves the sessions as `Lifecycle.GlobalSweep` says and reports how many it found |
| AttendanceRoutes.MarkAttendance | Routes/AttendanceRoute.js:348-395 | the handler as written: its `findOne` reaches the first session with the identifier, and the record is changed in place exactly as `Lifecycle.MarkAsWritten` says, with the same outcome |
| AttendanceRoutes.MarkAttendanceLatest | Routes/AttendanceRoute.js:348-395 | the same handler with the latest-session lookup: the record is changed in place exactly as `Lifecycle.Mark` says |
| AttendanceRoutes.MarkFound | Routes/AttendanceRoute.js:358-390 | once a lookup has answered, the guard chain and the single in-place status write are exactly those of `Lifecycle.MarkWith` |
| AttendanceRoutes.StudentCourseView | Routes/AttendanceRoute.js:295-344 | checks come in order: unknown course; then a caller not enrolled; then a record whose session is gone, which fails; otherwise one row per record of the caller, in stored order, carrying its session's lecture date, the record's status and the session's `isActive`; `isWithinTimeframe` holds iff start <= now <= end; both together hold iff the session is open for marking; a linked store never fails |
| WeeklyMarking.OpenThenMark | Routes/AttendanceRoute.js:192-388 | right after an opening, a listed student who marks with its identifier inside its window is marked present, through the latest-session lookup |
| WeeklyMarking.EarlierSessionShadows | Routes/AttendanceRoute.js:357-373 | if an earlier session with the same identifier is closed at that instant, the first-match lookup answers "not active" to everyone |
| WeeklyMarking.WeekLaterOpening | Routes/AttendanceRoute.js:131-213 | a slot opened now opens again a week later, with the same identifier and the window moved by a week |
| WeeklyMarking.SecondWeekMarkFails | Routes/AttendanceRoute.js:180-373 | in a lecture's second week the session opens with the same identifier, and marking through the handler's lookup after the first window's end fails with 403 |
| WeeklyMarking.SecondWeekMarkCorrected | Routes/AttendanceRoute.js:180-388 | in the same second week, the latest-session lookup marks a listed student present inside the new window |

## Left out

- Express routing, HTTP plumbing, `server.js` wiring, logging and the generic 500 catch paths. Outcomes are datatypes and carry the status code in a comment.
- node-cron. Each scheduled job is a `Timer` value that runs when an event says so. Repeated runs, the timers never being stopped, and the UTC time zone of the jobs against the local clock are not modelled.
- QR generation, bcrypt, JWT signing and verification, and `Math.random`. These are parameters: a QR string or its failure, a salt, a verification function, and a draw below 90000. A hash is abstract and matches exactly its plain text.
- Concurrency. Every handler runs to completion before the next one starts. The read-then-write of marking and the `Promise.all` in registration are therefore sequential.
- `Number()` on whitespace, signs, fractions and other numeral forms. These are treated as NaN.
- A `semesterStartDate` that does not cast to a date.
- `GET /department/:departmentId` (Routes/Course.js:202-217). It filters on a `department` path that the Course schema does not have, so its answer depends on the Mongoose version's strict-query setting.
- The `department` populate of `GET /` (Routes/Course.js:182-190). The Course schema has no such path. `CourseRoutes.ListCourses` assumes a Mongoose version where populating an unknown path is ignored (before version 6). Under Mongoose 6, `strictPopulate` is on by default, and `GET /` fails with an error for every role.
- `populate` of teachers and students in the listings, and `GET /profile` (Routes/Auth.js:167-181).
- `GET /student/history` (Routes/AttendanceRoute.js:398-416). It is registered after `/student/:courseId`, which matches first and fails its cast on "history".
- `GET /teacher/history/:courseId` (Routes/AttendanceRoute.js:419-439). It sorts on a path of populated documents, which the database cannot see.
- `course.remove()` is modelled as deleting the document. Its availability differs between Mongoose versions.
- The department and department-route code (Routes/DepartmentRoute.js, Models/Department.js). A department is an id, a name and a course id list where the course routes need one.
- Face data is stored as given. No face matching exists in this code.
- `/register` in Routes/Course.js saves `req.user`, which `auth` loaded without its password. The model re-saves the stored user with its courses replaced, which leaves the stored hash in place.
- Duplicate student ids in a course's list would give duplicate roster records. Nothing prevents them, and no lemma excludes them.
- `auth`'s catch (Middleware/AuthMiddleware.js:12-20) covers the token split, `jwt.verify` and `User.findById`. Errors of the handlers after it reach Express's own error path and are not modelled.
- The `createdAt` and `updatedAt` fields that `timestamps: true` adds (Models/Attendance.js:37, Models/Course.js:23, Models/User.js:44). The mark's `save()` also bumps `updatedAt`, so "only the status changes" holds for the modelled fields.
- The response after a failed session save in `POST /create/:courseId` (Routes/AttendanceRoute.js:185-202). The save runs inside the QR callback, outside the `try` and `asyncHandler`, so a failure is an unhandled rejection. No response is sent, and by default Node 15 or later exits. The model records only that the store is unchanged (`SessionInvalid`).
- Daylight-saving time. `Clock.Weekday`, `Clock.StartOfDay` and `Clock.AtClock` take every day as 86 400 000 ms, that is a server clock in UTC or another zone without DST. dayjs works in local time, where a transition day is shorter or longer.
- AttendanceRoutes.StudentSummary: the source throws at the first late record it meets. The model's outcome is the failure itself; the partial totals at that point are not part of the contract.

## Findings

| source | as written | input that shows it | evidently intended | confidence | as-written member | corrected member |
|---|---|---|---|---|---|---|
| Routes/AttendanceRoute.js:180, Routes/AttendanceRoute.js:357 | the session identifier is `courseId_day_startTime`, which is the same for the same slot every week, and marking looks it up with `findOne`, which returns the first (oldest) session with it | a course scheduled on Mondays 09:00-10:00; the teacher opens a session in week 1 and again in week 2; a listed student marks during week 2's lecture; the lookup reaches week 1's session, whose window is over, so the answer is 403 "not active or out of allowed timeframe" | marking reaches the session opened for the current lecture, that is the latest one with the identifier | not executed | Lifecycle.MarkAsWritten, AttendanceRoutes.MarkAttendance, WeeklyMarking.SecondWeekMarkFails | Lifecycle.Mark, AttendanceRoutes.MarkAttendanceLatest, WeeklyMarking.OpenThenMark, WeeklyMarking.SecondWeekMarkCorrected |
