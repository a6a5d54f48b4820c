/** The report and export projection of attendance/views.py: an inclusive
    date range and user filter, ordered by date and then by username. */
module Reports {
  import opened Common
  import opened Logs
  import opened Clock

  /** The optional GET parameters start_date, end_date and user; an absent or
      empty parameter applies no filter. */
  datatype Filter = Filter(startDate: Option<Date>, endDate: Option<Date>, user: Option<UserId>)

  predicate Matches(f: Filter, k: LogKey)
  {
    && (f.startDate.None? || f.startDate.value <= k.date)
    && (f.endDate.None? || k.date <= f.endDate.value)
    && (f.user.None? || f.user.value == k.user)
  }

  /** One log of the query result, with the username it is ordered by. */
  datatype Row = Row(user: UserId, username: string, date: Date, log: Log)
  {
    function Key(): LogKey { LogKey(user, date) }
  }

  /** reports() orders by '-date', export_excel() by 'date'; both then by username. */
  datatype DateOrder = Ascending | Descending

  /** Lexicographic order of usernames by character code. */
  predicate StrLess(a: string, b: string)
  {
    if a == [] then b != []
    else if b == [] then false
    else a[0] < b[0] || (a[0] == b[0] && StrLess(a[1..], b[1..]))
  }

  lemma {:induction false} StrLessIrreflexive(a: string)
    ensures !StrLess(a, a)
  {
    if a != [] { StrLessIrreflexive(a[1..]); }
  }

  lemma {:induction false} StrLessTransitive(a: string, b: string, c: string)
    requires StrLess(a, b) && StrLess(b, c)
    ensures StrLess(a, c)
  {
    if a != [] && a[0] == b[0] && b[0] == c[0] {
      StrLessTransitive(a[1..], b[1..], c[1..]);
    }
  }

  lemma {:induction false} StrLessTotal(a: string, b: string)
    requires a != b
    ensures StrLess(a, b) || StrLess(b, a)
  {
    if a != [] && b != [] && a[0] == b[0] {
      assert a == [a[0]] + a[1..] && b == [b[0]] + b[1..];
      StrLessTotal(a[1..], b[1..]);
    }
  }

  /** `x` comes strictly before `y` in the query's ordering. */
  predicate Before(x: Row, y: Row, o: DateOrder)
  {
    if x.date != y.date then (if o == Ascending then x.date < y.date else x.date > y.date)
    else StrLess(x.username, y.username)
  }

  lemma BeforeTransitive(x: Row, y: Row, z: Row, o: DateOrder)
    requires Before(x, y, o) && Before(y, z, o)
    ensures Before(x, z, o)
  {
    if x.date == y.date == z.date {
      StrLessTransitive(x.username, y.username, z.username);
    }
  }

  /** Rows on different dates, or with different usernames, are ordered one way or the other. */
  lemma BeforeTotal(x: Row, y: Row, o: DateOrder)
    requires x.date != y.date || x.username != y.username
    ensures Before(x, y, o) || Before(y, x, o)
  {
    if x.date == y.date { StrLessTotal(x.username, y.username); }
  }

  /** Strictly ordered, hence without repeats. */
  predicate Sorted(rows: seq<Row>, o: DateOrder)
  {
    forall i, j :: 0 <= i < j < |rows| ==> Before(rows[i], rows[j], o)
  }

  lemma SortedHasNoRepeats(rows: seq<Row>, o: DateOrder, i: int, j: int)
    requires Sorted(rows, o) && 0 <= i < j < |rows|
    ensures rows[i] != rows[j]
  {
    if rows[i] == rows[j] { StrLessIrreflexive(rows[i].username); }
  }

  lemma {:induction false} BeforeAll(r: Row, rows: seq<Row>, o: DateOrder)
    requires Sorted(rows, o) && rows != [] && Before(r, rows[0], o)
    ensures forall x :: x in rows ==> Before(r, x, o)
  {
    forall x | x in rows ensures Before(r, x, o) {
      var j :| 0 <= j < |rows| && rows[j] == x;
      if j > 0 { BeforeTransitive(r, rows[0], x, o); }
    }
  }

  /** A row before every row of an ordered result can go in front of it. */
  lemma ConsSorted(x: Row, rows: seq<Row>, o: DateOrder)
    requires Sorted(rows, o)
    requires forall y :: y in rows ==> Before(x, y, o)
    ensures Sorted([x] + rows, o)
  {
    var out := [x] + rows;
    forall i, j | 0 <= i < j < |out| ensures Before(out[i], out[j], o) {
      if i > 0 { assert out[i] == rows[i - 1] && out[j] == rows[j - 1]; }
      else { assert out[j] in rows; }
    }
  }

  /** Puts a row into its place in an ordered result. */
  function InsertRow(rows: seq<Row>, r: Row, o: DateOrder): (out: seq<Row>)
    requires Sorted(rows, o)
    requires forall x :: x in rows ==> Before(x, r, o) || Before(r, x, o)
    ensures Sorted(out, o)
    ensures multiset(out) == multiset(rows) + multiset{r}
    ensures forall x :: x in out <==> x in rows || x == r
  {
    if rows == [] then [r]
    else if Before(r, rows[0], o) then
      BeforeAll(r, rows, o);
      ConsSorted(r, rows, o);
      [r] + rows
    else
      assert rows == [rows[0]] + rows[1..];
      assert Before(rows[0], r, o) by { assert rows[0] in rows; }
      var t := InsertRow(rows[1..], r, o);
      assert forall x :: x in t ==> Before(rows[0], x, o) by {
        forall x | x in t ensures Before(rows[0], x, o) {
          if x != r {
            var j :| 0 <= j < |rows[1..]| && rows[1..][j] == x;
            assert rows[j + 1] == x;
          }
        }
      }
      ConsSorted(rows[0], t, o);
      [rows[0]] + t
  }

  /** One data row of the exported sheet: User, Date, Check In, Check Out,
      Total Hours. None stands for the cell text "N/A"; times and the total
      are kept in seconds (the sheet formats them as text). */
  datatype ExportLine = ExportLine(user: string, date: Date, checkIn: Option<Time>, checkOut: Option<Time>, totalSeconds: Option<int>)

  const EXPORT_HEADER: seq<string> := ["User", "Date", "Check In", "Check Out", "Total Hours"]

  /** The sheet: a header row, then one line per log. */
  datatype Sheet = Sheet(header: seq<string>, lines: seq<ExportLine>)

  /** export_excel's row for one log: unlike get_total_hours_display, it shows
      a total whenever both times are present, however small. */
  function ExportLineOf(x: Row, u: UserInfo): (line: ExportLine)
    ensures line.user == DisplayName(u) && line.date == x.date
    ensures line.checkIn == x.log.checkIn && line.checkOut == x.log.checkOut
    ensures line.totalSeconds.Some? <==> IsComplete(x.log)
    ensures line.totalSeconds.Some? ==> line.totalSeconds.value == TotalSeconds(x.log)
  {
    ExportLine(DisplayName(u), x.date, x.log.checkIn, x.log.checkOut,
      if IsComplete(x.log) then Some(TotalSeconds(x.log)) else None)
  }

  /** The export's Total Hours cell and get_total_hours_display agree on every
      record that passes AttendanceLog.clean, and disagree on exactly the
      complete records that fail it, where the export shows a total of zero or
      less and the display shows "N/A". */
  lemma ExportTotalVersusDisplay(x: Row, u: UserInfo)
    ensures Logs.Clean(x.log) ==> ExportLineOf(x, u).totalSeconds == TotalHoursDisplay(x.log)
    ensures !Logs.Clean(x.log) ==>
      TotalHoursDisplay(x.log) == None && ExportLineOf(x, u).totalSeconds.Some? && ExportLineOf(x, u).totalSeconds.value <= 0
  {
  }
}
