/**
  * The per-lecture-date grouping of the teacher report: the two `$group`
  * stages and the `$sort` of its aggregation, computed by counting the
  * records in one at a time and specified by what the rows say about them.
  */
module DateReport {
  import opened Base
  import opened AttendanceModel

  /** One row of a course's report: a lecture date and its present and absent counts. */
  datatype DateCount = DateCount(lectureDate: Instant, presentCount: nat, absentCount: nat)

  /** How many of `rs` were held on `date` with status `s`. */
  function CountOn(rs: seq<Record>, date: Instant, s: Status): nat
    decreases |rs|
  {
    if |rs| == 0 then 0
    else CountOn(rs[..|rs| - 1], date, s) + (if rs[|rs| - 1].lectureDate == date && rs[|rs| - 1].status == s then 1 else 0)
  }

  /** The lecture dates that occur in `rs`. */
  function LectureDates(rs: seq<Record>): set<Instant> {
    set k | 0 <= k < |rs| :: rs[k].lectureDate
  }

  /** The dates of the rows. */
  function Dates(rows: seq<DateCount>): set<Instant> {
    set j | 0 <= j < |rows| :: rows[j].lectureDate
  }

  predicate Ascending(rows: seq<DateCount>) {
    forall i, j :: 0 <= i < j < |rows| ==> rows[i].lectureDate < rows[j].lectureDate
  }

  /** The (present, absent) counts of the first row dated `d`, or zeros. */
  function CountsOn(rows: seq<DateCount>, d: Instant): (nat, nat)
    decreases |rows|
  {
    if |rows| == 0 then (0, 0)
    else if rows[0].lectureDate == d then (rows[0].presentCount, rows[0].absentCount)
    else CountsOn(rows[1..], d)
  }

  /** A date without a row counts zero. */
  lemma {:induction false} CountsOffDates(rows: seq<DateCount>, d: Instant)
    requires d !in Dates(rows)
    ensures CountsOn(rows, d) == (0, 0)
    decreases |rows|
  {
    if |rows| > 0 {
      assert rows[0].lectureDate in Dates(rows);
      assert Dates(rows[1..]) <= Dates(rows) by {
        forall j | 0 <= j < |rows[1..]| ensures rows[1..][j].lectureDate in Dates(rows) {
          assert rows[1..][j] == rows[j + 1];
        }
      }
      CountsOffDates(rows[1..], d);
    }
  }

  /** In ascending rows, the counts of a date are those of its one row. */
  lemma {:induction false} CountsOfRow(rows: seq<DateCount>, j: nat)
    requires Ascending(rows) && j < |rows|
    ensures CountsOn(rows, rows[j].lectureDate) == (rows[j].presentCount, rows[j].absentCount)
    decreases j
  {
    if j > 0 {
      assert rows[0].lectureDate < rows[j].lectureDate;
      assert rows[1..][j - 1] == rows[j];
      CountsOfRow(rows[1..], j - 1);
    }
  }

  /** The counts one record adds on date `d`. */
  function Bump(c: (nat, nat), r: Record, d: Instant): (nat, nat) {
    if r.lectureDate != d then c
    else (c.0 + (if r.status == Present then 1 else 0), c.1 + (if r.status == Absent then 1 else 0))
  }

  /** Counting one more record into the rows: its date's row is updated, or a row inserted in date order. */
  function AddToDate(rows: seq<DateCount>, r: Record): seq<DateCount>
    decreases |rows|
  {
    var p: nat := if r.status == Present then 1 else 0;
    var a: nat := if r.status == Absent then 1 else 0;
    if |rows| == 0 then [DateCount(r.lectureDate, p, a)]
    else if rows[0].lectureDate == r.lectureDate then
      [rows[0].(presentCount := rows[0].presentCount + p, absentCount := rows[0].absentCount + a)] + rows[1..]
    else if r.lectureDate < rows[0].lectureDate then [DateCount(r.lectureDate, p, a)] + rows
    else [rows[0]] + AddToDate(rows[1..], r)
  }

  /** The dates of `[x] + rows`. */
  lemma DatesCons(x: DateCount, rows: seq<DateCount>)
    ensures Dates([x] + rows) == {x.lectureDate} + Dates(rows)
  {
    var s := [x] + rows;
    forall d | d in Dates(rows) ensures d in Dates(s) {
      var j :| 0 <= j < |rows| && rows[j].lectureDate == d;
      assert s[j + 1] == rows[j];
    }
    assert s[0] == x;
  }

  /** Counting in a record whose date already heads the rows. */
  lemma AddToDateSameHead(rows: seq<DateCount>, r: Record)
    requires Ascending(rows) && |rows| > 0 && rows[0].lectureDate == r.lectureDate
    ensures Ascending(AddToDate(rows, r))
    ensures Dates(AddToDate(rows, r)) == Dates(rows) + {r.lectureDate}
    ensures forall d :: CountsOn(AddToDate(rows, r), d) == Bump(CountsOn(rows, d), r, d)
  {
    var res, tail := AddToDate(rows, r), rows[1..];
    assert res[0].lectureDate == rows[0].lectureDate;
    assert rows == [rows[0]] + tail && res == [res[0]] + tail;
    assert forall j :: 0 < j < |res| ==> res[j] == rows[j];
    DatesCons(rows[0], tail);
    DatesCons(res[0], tail);
    forall d
      ensures CountsOn(res, d) == Bump(CountsOn(rows, d), r, d)
    {
      if d != r.lectureDate {
        assert CountsOn(res, d) == CountsOn(tail, d) == CountsOn(rows, d);
      }
    }
  }

  /** Counting in a record dated before every row. */
  lemma AddToDateInsert(rows: seq<DateCount>, r: Record)
    requires Ascending(rows) && |rows| > 0 && r.lectureDate < rows[0].lectureDate
    ensures Ascending(AddToDate(rows, r))
    ensures Dates(AddToDate(rows, r)) == Dates(rows) + {r.lectureDate}
    ensures forall d :: CountsOn(AddToDate(rows, r), d) == Bump(CountsOn(rows, d), r, d)
  {
    var res := AddToDate(rows, r);
    assert res == [res[0]] + rows;
    DatesCons(res[0], rows);
    assert r.lectureDate !in Dates(rows);
    CountsOffDates(rows, r.lectureDate);
  }

  /** Counting one more record keeps the rows ascending, adds its date, and bumps that date's counts alone. */
  lemma {:induction false} AddToDateMeaning(rows: seq<DateCount>, r: Record)
    requires Ascending(rows)
    ensures Ascending(AddToDate(rows, r))
    ensures Dates(AddToDate(rows, r)) == Dates(rows) + {r.lectureDate}
    ensures forall d :: CountsOn(AddToDate(rows, r), d) == Bump(CountsOn(rows, d), r, d)
    decreases |rows|, 1
  {
    if |rows| == 0 {
      var res := AddToDate(rows, r);
      assert Dates(res) == {r.lectureDate} by { assert res[0].lectureDate == r.lectureDate; }
    } else if rows[0].lectureDate == r.lectureDate {
      AddToDateSameHead(rows, r);
    } else if r.lectureDate < rows[0].lectureDate {
      AddToDateInsert(rows, r);
    } else {
      AddToDateLater(rows, r);
    }
  }

  /** Counting in a record dated after the first row: the first row stays in front. */
  lemma {:induction false} AddToDateLater(rows: seq<DateCount>, r: Record)
    requires Ascending(rows) && |rows| > 0 && rows[0].lectureDate < r.lectureDate
    ensures Ascending(AddToDate(rows, r))
    ensures Dates(AddToDate(rows, r)) == Dates(rows) + {r.lectureDate}
    ensures forall d :: CountsOn(AddToDate(rows, r), d) == Bump(CountsOn(rows, d), r, d)
    decreases |rows|, 0
  {
    var head, tail := rows[0], rows[1..];
    var res, rest := AddToDate(rows, r), AddToDate(tail, r);
    assert Ascending(tail);
    AddToDateMeaning(tail, r);
    assert rows == [head] + tail && res == [head] + rest;
    DatesCons(head, tail);
    DatesCons(head, rest);
    forall j | 0 < j < |res|
      ensures head.lectureDate < res[j].lectureDate
    {
      assert res[j] == rest[j - 1];
      assert res[j].lectureDate in Dates(rest);
    }
  }

  /**
    * The grouping and the sort: one row per lecture date of `rs`, in
    * ascending date order, counting the present and the absent records of
    * that date. A record of any other status still gives its date a row.
    */
  function ByDate(rs: seq<Record>): (rows: seq<DateCount>)
    ensures Ascending(rows)
    ensures Dates(rows) == LectureDates(rs)
    ensures forall d :: CountsOn(rows, d) == (CountOn(rs, d, Present), CountOn(rs, d, Absent))
    decreases |rs|
  {
    if |rs| == 0 then []
    else
      var front, last := rs[..|rs| - 1], rs[|rs| - 1];
      var before := ByDate(front);
      AddToDateMeaning(before, last);
      assert LectureDates(rs) == LectureDates(front) + {last.lectureDate} by {
        assert forall k :: 0 <= k < |front| ==> front[k] == rs[k];
      }
      AddToDate(before, last)
  }

  /** Each row of `ByDate(rs)` holds the counts of its own date. */
  lemma ByDateRows(rs: seq<Record>)
    ensures forall j :: 0 <= j < |ByDate(rs)| ==>
              ByDate(rs)[j].presentCount == CountOn(rs, ByDate(rs)[j].lectureDate, Present)
              && ByDate(rs)[j].absentCount == CountOn(rs, ByDate(rs)[j].lectureDate, Absent)
  {
    var rows := ByDate(rs);
    forall j | 0 <= j < |rows| {
      CountsOfRow(rows, j);
    }
  }

  /**
    * Two row lists that both satisfy the description of the report are
    * equal: the description determines the rows, so `ByDate` is the
    * aggregation's answer whatever order the records come in.
    */
  lemma {:induction false} ReportDetermined(a: seq<DateCount>, b: seq<DateCount>)
    requires Ascending(a) && Ascending(b) && Dates(a) == Dates(b)
    requires forall d :: CountsOn(a, d) == CountsOn(b, d)
    ensures a == b
    decreases |a|
  {
    if |a| > 0 {
      assert a[0].lectureDate in Dates(b);
    }
    if |b| > 0 {
      assert b[0].lectureDate in Dates(a);
    }
    if |a| > 0 && |b| > 0 {
      var d0 := a[0].lectureDate;
      assert a == [a[0]] + a[1..] && b == [b[0]] + b[1..];
      DatesCons(a[0], a[1..]);
      DatesCons(b[0], b[1..]);
      assert a[0].lectureDate == b[0].lectureDate by {
        assert d0 in Dates(b);
        assert b[0].lectureDate in Dates(a);
      }
      CountsOfRow(a, 0);
      CountsOfRow(b, 0);
      assert d0 !in Dates(a[1..]);
      assert d0 !in Dates(b[1..]);
      assert Ascending(a[1..]) && Ascending(b[1..]);
      forall d
        ensures CountsOn(a[1..], d) == CountsOn(b[1..], d)
      {
        if d == d0 {
          CountsOffDates(a[1..], d);
          CountsOffDates(b[1..], d);
        } else {
          assert CountsOn(a, d) == CountsOn(a[1..], d);
          assert CountsOn(b, d) == CountsOn(b[1..], d);
        }
      }
      ReportDetermined(a[1..], b[1..]);
    }
  }
}
