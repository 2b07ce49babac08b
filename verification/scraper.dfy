/**
 * scraper.py: the portal scraper's login check, its two table fetches
 * (attendance and course timetable) and the stand-alone detailed-timetable
 * parser.
 *
 * The HTTP session and the HTML parsing are not modelled: a fetch starts from
 * the table it looked for (None when the page has no such table), given as
 * its `tr` rows, each row as the stripped texts of its `td` cells.
 */
module Scraper {
  import opened Wrappers
  import PyText
  import PyInt
  import Rows

  /** The marker of a rejected login in the portal's answer. */
  const INVALID_MARKER: string := "Invalid"
  const INVALID_CREDENTIALS: string := "Invalid username or password"
  const ATTENDANCE_UNAVAILABLE: string := "Attendance data not available"
  const TIMETABLE_UNAVAILABLE: string := "Timetable not available"

  /** The stripped texts of a row's `td` cells. */
  type Row = seq<string>

  /**
   * What the scraper raises: an `Exception` with a message, the TypeError of
   * a hidden login field that is missing, or the ValueError of `int(text)`.
   */
  datatype ScrapeError = Failure(message: string) | MissingFormField | NotAnInteger(text: string)

  // ---------------------------------------------------------------------------
  // login
  // ---------------------------------------------------------------------------

  /**
   * `login` after its two requests: `formFieldsFound` says whether the login
   * page has the three hidden ASP.NET inputs, `responseText` is the body of the
   * answer to the login POST. None when the login goes through.
   */
  function Login(formFieldsFound: bool, responseText: string): Option<ScrapeError>
  {
    if !formFieldsFound then Some(MissingFormField)
    else if PyText.Contains(responseText, INVALID_MARKER) then Some(Failure(INVALID_CREDENTIALS))
    else None
  }

  /**
   * Once the form is posted, the login is refused exactly when "Invalid"
   * occurs somewhere in the answer, and goes through otherwise.
   */
  lemma LoginRefusedIffInvalid(responseText: string)
    ensures Login(true, responseText) == Some(Failure(INVALID_CREDENTIALS)) <==>
      exists i: nat :: PyText.OccursAt(responseText, INVALID_MARKER, i)
    ensures Login(true, responseText).None? <==>
      forall i: nat :: !PyText.OccursAt(responseText, INVALID_MARKER, i)
  {
    PyText.ContainsIff(responseText, INVALID_MARKER);
  }

  // ---------------------------------------------------------------------------
  // fetch_attendance
  // ---------------------------------------------------------------------------

  /** One entry of `attendance_data`. */
  datatype CourseAttendance = CourseAttendance(
    courseCode: string,
    totalHours: int,
    totalPresent: int,
    percentage: int,
    lastUpdated: string)

  /** A row fetch_attendance keeps: at least ten cells. */
  predicate HasAttendanceColumns(cols: Row)
  {
    |cols| >= 10
  }

  /**
   * The dict built from a kept row: columns 0, 1, 4, 5 and 9, the three
   * numbers through `int`, evaluated in that order (the first failure raises).
   */
  function ParseCourseAttendance(cols: Row): Result<CourseAttendance, ScrapeError>
    requires HasAttendanceColumns(cols)
  {
    match PyInt.ParseInt(cols[1])
    case None => Err(NotAnInteger(cols[1]))
    case Some(hours) =>
      match PyInt.ParseInt(cols[4])
      case None => Err(NotAnInteger(cols[4]))
      case Some(present) =>
        match PyInt.ParseInt(cols[5])
        case None => Err(NotAnInteger(cols[5]))
        case Some(perc) => Ok(CourseAttendance(cols[0], hours, present, perc, cols[9]))
  }

  /** A kept row whose three number cells are integers, as its entry. */
  function CourseAttendanceOf(cols: Row): CourseAttendance
    requires HasAttendanceColumns(cols) && ParseCourseAttendance(cols).Ok?
  {
    ParseCourseAttendance(cols).value
  }

  /**
   * A row whose columns 1, 4 and 5 hold `str` of three integers gives the
   * entry with those integers, the code from column 0 and the date from column 9.
   */
  lemma ParseCourseAttendanceReadsColumns(cols: Row, hours: int, present: int, perc: int)
    requires HasAttendanceColumns(cols)
    requires cols[1] == PyInt.IntToString(hours)
    requires cols[4] == PyInt.IntToString(present)
    requires cols[5] == PyInt.IntToString(perc)
    ensures ParseCourseAttendance(cols) == Ok(CourseAttendance(cols[0], hours, present, perc, cols[9]))
  {
    PyInt.ParseIntRoundTrip(hours);
    PyInt.ParseIntRoundTrip(present);
    PyInt.ParseIntRoundTrip(perc);
  }

  /** A decimal in any number column makes the row fail: there is no default. */
  lemma ParseCourseAttendanceRejectsDecimals(cols: Row)
    requires HasAttendanceColumns(cols)
    requires '.' in cols[1] || '.' in cols[4] || '.' in cols[5]
    ensures ParseCourseAttendance(cols).Err?
  {
    if '.' in cols[1] {
      PyInt.ParseIntRejectsDecimalPoint(cols[1]);
    } else if '.' in cols[4] {
      PyInt.ParseIntRejectsDecimalPoint(cols[4]);
    } else {
      PyInt.ParseIntRejectsDecimalPoint(cols[5]);
    }
  }

  /** The loop over `rows[i..]`: short rows are skipped; the first kept row that fails stops the fetch. */
  function AttendanceFrom(rows: seq<Row>, i: nat): (r: Result<seq<CourseAttendance>, ScrapeError>)
    requires i <= |rows|
    ensures r.Err? ==> r.error.NotAnInteger?
    decreases |rows| - i
  {
    if i == |rows| then Ok([])
    else if !HasAttendanceColumns(rows[i]) then AttendanceFrom(rows, i + 1)
    else
      match ParseCourseAttendance(rows[i])
      case Err(e) => Err(e)
      case Ok(entry) => Rows.Prepend([entry], AttendanceFrom(rows, i + 1))
  }

  /** fetch_attendance after the page fetch, over the `cssbody` table's rows. */
  function FetchAttendanceOf(table: Option<seq<Row>>): (r: Result<seq<CourseAttendance>, ScrapeError>)
    ensures r == Err(Failure(ATTENDANCE_UNAVAILABLE)) <==> table.None?
  {
    match table
    case None => Err(Failure(ATTENDANCE_UNAVAILABLE))
    case Some(rows) => AttendanceFrom(Rows.Tail(rows), 0)
  }

  /**
   * The loop succeeds exactly when every kept row parses, and then its
   * entries are those of the kept rows, in order.
   */
  lemma {:induction false} AttendanceFromSucceeds(rows: seq<Row>, i: nat)
    requires i <= |rows|
    ensures AttendanceFrom(rows, i).Ok? <==>
      forall k :: i <= k < |rows| && HasAttendanceColumns(rows[k]) ==> ParseCourseAttendance(rows[k]).Ok?
    ensures AttendanceFrom(rows, i).Ok? ==>
      AttendanceFrom(rows, i).value == Rows.MapKept(HasAttendanceColumns, CourseAttendanceOf, rows, i)
    decreases |rows| - i
  {
    if i < |rows| {
      AttendanceFromSucceeds(rows, i + 1);
    }
  }

  /** A failing loop reports the error of the first kept row that does not parse. */
  lemma {:induction false} AttendanceFromFirstError(rows: seq<Row>, i: nat)
    requires i <= |rows|
    requires AttendanceFrom(rows, i).Err?
    ensures exists k :: i <= k < |rows| && HasAttendanceColumns(rows[k]) &&
                        ParseCourseAttendance(rows[k]) == Err(AttendanceFrom(rows, i).error) &&
                        forall j :: i <= j < k && HasAttendanceColumns(rows[j]) ==> ParseCourseAttendance(rows[j]).Ok?
    decreases |rows| - i
  {
    var e := AttendanceFrom(rows, i).error;
    if HasAttendanceColumns(rows[i]) && ParseCourseAttendance(rows[i]).Err? {
      assert ParseCourseAttendance(rows[i]) == Err(e);
    } else {
      assert AttendanceFrom(rows, i + 1) == Err(e);
      AttendanceFromFirstError(rows, i + 1);
      var k :| i + 1 <= k < |rows| && HasAttendanceColumns(rows[k]) &&
        ParseCourseAttendance(rows[k]) == Err(e) &&
        forall j :: i + 1 <= j < k && HasAttendanceColumns(rows[j]) ==> ParseCourseAttendance(rows[j]).Ok?;
      assert i <= k;
    }
  }

  /** With a table, the header row is skipped and every entry comes from a later row with at least ten cells. */
  lemma FetchAttendanceEntriesFromRows(table: Option<seq<Row>>)
    requires table.Some? && FetchAttendanceOf(table).Ok?
    ensures var rows, entries := table.value, FetchAttendanceOf(table).value;
      |entries| <= |Rows.Tail(rows)| &&
      forall c :: c in entries ==>
        (exists k :: 1 <= k < |rows| && HasAttendanceColumns(rows[k]) && ParseCourseAttendance(rows[k]) == Ok(c))
    ensures var rows, entries := table.value, FetchAttendanceOf(table).value;
      (forall k :: 1 <= k < |rows| && HasAttendanceColumns(rows[k]) ==> ParseCourseAttendance(rows[k]).Ok?) &&
      exists idx :: Rows.ComesFromPositions(HasAttendanceColumns, CourseAttendanceOf, rows, 1, entries, idx)
  {
    var rows := table.value;
    var data := Rows.Tail(rows);
    AttendanceFromSucceeds(data, 0);
    assert forall k :: 1 <= k < |rows| ==> rows[k] == data[k - 1];
    Rows.MapKeptTailPositions(HasAttendanceColumns, CourseAttendanceOf, rows);
    Rows.MapKeptFrom(HasAttendanceColumns, CourseAttendanceOf, data, 0);
    forall c | c in AttendanceFrom(data, 0).value
      ensures exists k :: 1 <= k < |rows| && HasAttendanceColumns(rows[k]) && ParseCourseAttendance(rows[k]) == Ok(c)
    {
      var k :| 0 <= k < |data| && HasAttendanceColumns(data[k]) && c == CourseAttendanceOf(data[k]);
      assert rows[k + 1] == data[k];
    }
  }

  /** When every row after the header has ten cells and parses, the fetch succeeds and entry k comes from row k + 1. */
  lemma FetchAttendanceOneEntryPerRow(table: Option<seq<Row>>)
    requires table.Some? && |table.value| > 0
    requires forall k :: 1 <= k < |table.value| ==>
      HasAttendanceColumns(table.value[k]) && ParseCourseAttendance(table.value[k]).Ok?
    ensures FetchAttendanceOf(table).Ok?
    ensures var rows, entries := table.value, FetchAttendanceOf(table).value;
      |entries| == |rows| - 1 &&
      forall k :: 1 <= k < |rows| ==> entries[k - 1] == CourseAttendanceOf(rows[k])
  {
    var rows := table.value;
    var data := Rows.Tail(rows);
    assert forall k :: 0 <= k < |data| ==> data[k] == rows[k + 1];
    AttendanceFromSucceeds(data, 0);
    Rows.MapKeptAll(HasAttendanceColumns, CourseAttendanceOf, data, 0);
  }

  /**
   * A failed fetch with a table reports the error of the first row after the
   * header that has ten cells and a number cell `int` rejects.
   */
  lemma FetchAttendanceFirstError(table: Option<seq<Row>>)
    requires table.Some? && FetchAttendanceOf(table).Err?
    ensures var rows := table.value;
      exists k :: 1 <= k < |rows| && HasAttendanceColumns(rows[k]) &&
        ParseCourseAttendance(rows[k]) == Err(FetchAttendanceOf(table).error) &&
        forall j :: 1 <= j < k && HasAttendanceColumns(rows[j]) ==> ParseCourseAttendance(rows[j]).Ok?
  {
    var rows := table.value;
    var data := Rows.Tail(rows);
    var e := FetchAttendanceOf(table).error;
    AttendanceFromFirstError(data, 0);
    var k :| 0 <= k < |data| && HasAttendanceColumns(data[k]) && ParseCourseAttendance(data[k]) == Err(e) &&
      forall j :: 0 <= j < k && HasAttendanceColumns(data[j]) ==> ParseCourseAttendance(data[j]).Ok?;
    assert rows[k + 1] == data[k];
    assert forall j :: 1 <= j < k + 1 ==> rows[j] == data[j - 1];
  }

  /**
   * A later row with ten cells and a decimal such as "74.5" in column 1, 4 or
   * 5 makes the whole fetch fail, whatever the other rows hold.
   */
  lemma DecimalCellFailsFetch(table: Option<seq<Row>>, k: nat)
    requires table.Some? && 1 <= k < |table.value| && HasAttendanceColumns(table.value[k])
    requires '.' in table.value[k][1] || '.' in table.value[k][4] || '.' in table.value[k][5]
    ensures FetchAttendanceOf(table).Err?
  {
    var rows := table.value;
    var data := Rows.Tail(rows);
    assert data[k - 1] == rows[k];
    ParseCourseAttendanceRejectsDecimals(rows[k]);
    AttendanceFromSucceeds(data, 0);
  }

  /** fetch_attendance: the loop that appends one dict per row with at least ten cells. */
  method FetchAttendance(table: Option<seq<Row>>) returns (r: Result<seq<CourseAttendance>, ScrapeError>)
    ensures r == FetchAttendanceOf(table)
  {
    if table.None? {
      return Err(Failure(ATTENDANCE_UNAVAILABLE));
    }
    var rows := Rows.Tail(table.value);
    var attendanceData: seq<CourseAttendance> := [];
    Rows.PrependNothing(AttendanceFrom(rows, 0));
    for i := 0 to |rows|
      invariant FetchAttendanceOf(table) == Rows.Prepend(attendanceData, AttendanceFrom(rows, i))
    {
      var cols := rows[i];
      if |cols| >= 10 {
        var totalHours := PyInt.ParseInt(cols[1]);
        if totalHours.None? {
          return Err(NotAnInteger(cols[1]));
        }
        var totalPresent := PyInt.ParseInt(cols[4]);
        if totalPresent.None? {
          return Err(NotAnInteger(cols[4]));
        }
        var percentage := PyInt.ParseInt(cols[5]);
        if percentage.None? {
          return Err(NotAnInteger(cols[5]));
        }
        var entry := CourseAttendance(cols[0], totalHours.value, totalPresent.value, percentage.value, cols[9]);
        Rows.PrependOne(attendanceData, entry, AttendanceFrom(rows, i + 1));
        attendanceData := attendanceData + [entry];
      }
    }
    assert attendanceData + [] == attendanceData;
    return Ok(attendanceData);
  }

  // ---------------------------------------------------------------------------
  // fetch_timetable
  // ---------------------------------------------------------------------------

  /** One entry of `timetable_data`. */
  datatype CourseInfo = CourseInfo(courseCode: string, courseName: string, program: string, semester: string)

  /** A row fetch_timetable keeps: at least four cells. */
  predicate HasTimetableColumns(cols: Row)
  {
    |cols| >= 4
  }

  /** The dict built from a kept row: its first four columns. */
  function CourseInfoOf(cols: Row): CourseInfo
    requires HasTimetableColumns(cols)
  {
    CourseInfo(cols[0], cols[1], cols[2], cols[3])
  }

  /** fetch_timetable after the page fetch, over the `TbCourDesc` table's rows. */
  function FetchTimetableOf(table: Option<seq<Row>>): (r: Result<seq<CourseInfo>, ScrapeError>)
    ensures r.Err? <==> table.None?
    ensures r.Err? ==> r.error == Failure(TIMETABLE_UNAVAILABLE)
  {
    match table
    case None => Err(Failure(TIMETABLE_UNAVAILABLE))
    case Some(rows) => Ok(Rows.MapKept(HasTimetableColumns, CourseInfoOf, Rows.Tail(rows), 0))
  }

  /**
   * With a table, the header row is skipped and every entry holds the first
   * four cells of a later row with at least four cells.
   */
  lemma FetchTimetableEntriesFromRows(table: Option<seq<Row>>)
    requires table.Some?
    ensures var rows, entries := table.value, FetchTimetableOf(table).value;
      |entries| <= |Rows.Tail(rows)| &&
      forall c :: c in entries ==>
        (exists k :: 1 <= k < |rows| && |rows[k]| >= 4 && c == CourseInfo(rows[k][0], rows[k][1], rows[k][2], rows[k][3]))
    ensures var rows, entries := table.value, FetchTimetableOf(table).value;
      exists idx :: Rows.ComesFromPositions(HasTimetableColumns, CourseInfoOf, rows, 1, entries, idx)
  {
    var rows := table.value;
    var data := Rows.Tail(rows);
    Rows.MapKeptTailPositions(HasTimetableColumns, CourseInfoOf, rows);
    Rows.MapKeptFrom(HasTimetableColumns, CourseInfoOf, data, 0);
    forall c | c in FetchTimetableOf(table).value
      ensures exists k :: 1 <= k < |rows| && |rows[k]| >= 4 && c == CourseInfo(rows[k][0], rows[k][1], rows[k][2], rows[k][3])
    {
      var k :| 0 <= k < |data| && HasTimetableColumns(data[k]) && c == CourseInfoOf(data[k]);
      assert rows[k + 1] == data[k];
    }
  }

  /** When every row after the header has at least four cells, entry k comes from row k + 1. */
  lemma FetchTimetableOneEntryPerRow(table: Option<seq<Row>>)
    requires table.Some? && |table.value| > 0
    requires forall k :: 1 <= k < |table.value| ==> |table.value[k]| >= 4
    ensures var rows, entries := table.value, FetchTimetableOf(table).value;
      |entries| == |rows| - 1 &&
      forall k :: 1 <= k < |rows| ==> entries[k - 1] == CourseInfo(rows[k][0], rows[k][1], rows[k][2], rows[k][3])
  {
    var rows := table.value;
    var data := Rows.Tail(rows);
    assert forall k :: 0 <= k < |data| ==> data[k] == rows[k + 1];
    Rows.MapKeptAll(HasTimetableColumns, CourseInfoOf, data, 0);
  }

  /** fetch_timetable: the loop that appends one dict per row with at least four cells. */
  method FetchTimetable(table: Option<seq<Row>>) returns (r: Result<seq<CourseInfo>, ScrapeError>)
    ensures r == FetchTimetableOf(table)
  {
    if table.None? {
      return Err(Failure(TIMETABLE_UNAVAILABLE));
    }
    var rows := Rows.Tail(table.value);
    var timetableData: seq<CourseInfo> := [];
    for i := 0 to |rows|
      invariant timetableData + Rows.MapKept(HasTimetableColumns, CourseInfoOf, rows, i) ==
                Rows.MapKept(HasTimetableColumns, CourseInfoOf, rows, 0)
    {
      var cols := rows[i];
      var rest := Rows.MapKept(HasTimetableColumns, CourseInfoOf, rows, i + 1);
      if |cols| >= 4 {
        var entry := CourseInfo(cols[0], cols[1], cols[2], cols[3]);
        assert (timetableData + [entry]) + rest == timetableData + ([entry] + rest);
        timetableData := timetableData + [entry];
      } else {
        assert [] + rest == rest;
      }
    }
    assert timetableData + [] == timetableData;
    return Ok(timetableData);
  }

  // ---------------------------------------------------------------------------
  // parse_detailed_timetable
  // ---------------------------------------------------------------------------

  /** A `tr` of the `timetable` table: the stripped texts of its `th` and of its `td` cells. */
  datatype TableRow = TableRow(headers: seq<string>, cells: seq<string>)

  /** One entry of `periods`. */
  datatype Period = Period(time: string, subjects: seq<string>)

  datatype DetailedTimetable = DetailedTimetable(days: seq<string>, periods: seq<Period>)

  /** The AttributeError of `header_row.find_all` when the table has no `tr` at all. */
  datatype ParseError = NoHeaderRow

  /** A row the loop does not skip: one with at least one `td`. */
  predicate HasCells(row: TableRow)
  {
    |row.cells| > 0
  }

  /** The period of a row with cells: its first cell is the time, the others the subjects. */
  function PeriodOf(row: TableRow): Period
    requires HasCells(row)
  {
    Period(row.cells[0], row.cells[1..])
  }

  /** parse_detailed_timetable after parsing: `Ok(None)` is its `return None` (no `timetable` table). */
  function ParseDetailedTimetableOf(table: Option<seq<TableRow>>): (r: Result<Option<DetailedTimetable>, ParseError>)
    ensures r == Ok(None) <==> table.None?
    ensures r.Err? <==> table.Some? && |table.value| == 0
  {
    match table
    case None => Ok(None)
    case Some(rows) =>
      if |rows| == 0 then Err(NoHeaderRow)
      else Ok(Some(DetailedTimetable(Rows.Tail(rows[0].headers), Rows.MapKept(HasCells, PeriodOf, Rows.Tail(rows), 0))))
  }

  /**
   * With a table that has rows, the days are the first row's header texts
   * after the first, and every period comes from a later row with cells: its
   * time the first cell, its subjects the others in order.
   */
  lemma DetailedPeriodsFromRows(table: Option<seq<TableRow>>)
    requires table.Some? && |table.value| > 0
    ensures var rows, t := table.value, ParseDetailedTimetableOf(table).value.value;
      |t.days| == (if |rows[0].headers| == 0 then 0 else |rows[0].headers| - 1) &&
      (forall k :: 0 <= k < |t.days| ==> t.days[k] == rows[0].headers[k + 1]) &&
      |t.periods| <= |rows| - 1 &&
      forall p :: p in t.periods ==>
        (exists k :: 1 <= k < |rows| && |rows[k].cells| > 0 && p.time == rows[k].cells[0] && p.subjects == rows[k].cells[1..])
    ensures var rows, t := table.value, ParseDetailedTimetableOf(table).value.value;
      exists idx :: Rows.ComesFromPositions(HasCells, PeriodOf, rows, 1, t.periods, idx)
  {
    var rows := table.value;
    var data := Rows.Tail(rows);
    Rows.MapKeptTailPositions(HasCells, PeriodOf, rows);
    Rows.MapKeptFrom(HasCells, PeriodOf, data, 0);
    forall p | p in Rows.MapKept(HasCells, PeriodOf, data, 0)
      ensures exists k :: 1 <= k < |rows| && |rows[k].cells| > 0 && p.time == rows[k].cells[0] && p.subjects == rows[k].cells[1..]
    {
      var k :| 0 <= k < |data| && HasCells(data[k]) && p == PeriodOf(data[k]);
      assert rows[k + 1] == data[k];
    }
  }

  /** When no row after the first is without cells, period k comes from row k + 1. */
  lemma DetailedOnePeriodPerRow(table: Option<seq<TableRow>>)
    requires table.Some? && |table.value| > 0
    requires forall k :: 1 <= k < |table.value| ==> |table.value[k].cells| > 0
    ensures var rows, t := table.value, ParseDetailedTimetableOf(table).value.value;
      |t.periods| == |rows| - 1 &&
      forall k :: 1 <= k < |rows| ==> t.periods[k - 1] == Period(rows[k].cells[0], rows[k].cells[1..])
  {
    var rows := table.value;
    var data := Rows.Tail(rows);
    assert forall k :: 0 <= k < |data| ==> data[k] == rows[k + 1];
    Rows.MapKeptAll(HasCells, PeriodOf, data, 0);
  }

  /** parse_detailed_timetable: the loop that appends a period for every later row with cells. */
  method ParseDetailedTimetable(table: Option<seq<TableRow>>) returns (r: Result<Option<DetailedTimetable>, ParseError>)
    ensures r == ParseDetailedTimetableOf(table)
  {
    if table.None? {
      return Ok(None);
    }
    var all := table.value;
    if |all| == 0 {
      return Err(NoHeaderRow);
    }
    var days := Rows.Tail(all[0].headers);
    var timeRows := Rows.Tail(all);
    var periods: seq<Period> := [];
    for i := 0 to |timeRows|
      invariant periods + Rows.MapKept(HasCells, PeriodOf, timeRows, i) == Rows.MapKept(HasCells, PeriodOf, timeRows, 0)
    {
      var cells := timeRows[i].cells;
      var rest := Rows.MapKept(HasCells, PeriodOf, timeRows, i + 1);
      if |cells| > 0 {
        var period := Period(cells[0], cells[1..]);
        assert (periods + [period]) + rest == periods + ([period] + rest);
        periods := periods + [period];
      } else {
        assert [] + rest == rest;
      }
    }
    assert periods + [] == periods;
    return Ok(Some(DetailedTimetable(days, periods)));
  }
}
