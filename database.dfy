/**
  * The document store the route handlers share, one collection per model,
  * each held in natural (insertion) order: a query without a sort sees its
  * matches in this order, and `findOne` returns the first of them. The
  * node-cron jobs a session opening schedules are kept beside the
  * collections.
  */
module Database {
  import opened UserModel
  import opened CourseModel
  import opened SessionModel
  import opened AttendanceModel
  import opened Lifecycle

  class Db {
    var users: seq<User>
    var departments: seq<Department>
    var courses: seq<Course>
    var sessions: seq<Session>
    var records: seq<Record>
    var timers: seq<Timer>

    constructor ()
      ensures users == [] && departments == [] && courses == []
      ensures sessions == [] && records == [] && timers == []
    {
      users, departments, courses := [], [], [];
      sessions, records, timers := [], [], [];
    }

    /** The part of the store the attendance lifecycle works on. */
    function State(): Store
      reads this
    {
      Store(sessions, records, timers)
    }
  }
}
