/**
 * bunker_mod.py: turns the rows of the portal's attendance table into course
 * records with an attend/bunk remark against a fixed 75% threshold, maps the
 * outcome of one fetch to the helper's result or error string, and
 * post-processes the two timetable tables (course titles and the weekly grid).
 *
 * Tables arrive already extracted: a row is the sequence of its cells' stripped
 * texts (for the weekly grid, each cell is the sequence of its stripped strings).
 * The HTTP requests and the HTML parsing in front of them are not modelled.
 */
module BunkerMod {
  import opened Wrappers
  import PyText
  import PyInt
  import Rows
  import PyMath

  /** The required attendance fraction (75%). */
  const THRESHOLD: real := 0.75

  const TRY_AGAIN: string := "Try again after some time"
  const TABLE_UPDATING: string := "Table is being updated"
  const NO_TABLE: string := "No attendance table found"
  const NO_DATA: string := "No attendance data found"
  /** The marker the portal puts in its Message span while it regenerates the table. */
  const ON_PROCESS: string := "On Process"

  /** The stripped texts of one table row's cells. */
  type Row = seq<string>

  /** The bunker suggestion of one course: exactly one of the two keys. */
  datatype Remark = ClassToAttend(classToAttend: int) | ClassToBunk(classToBunk: int)

  /** One course of the attendance table (the `temp` dict). */
  datatype AttendanceRecord = AttendanceRecord(
    courseCode: string,
    totalHours: int,
    exemptionHours: int,
    totalAbsent: int,
    totalPresent: int,
    percentage: int,
    periodFrom: string,
    periodTo: string,
    remark: Remark)

  /** The IndexError raised when a data row is too short to index up to `row[5]`. */
  datatype ProcessError = RowTooShort

  // ---------------------------------------------------------------------------
  // Numbers and the remark
  // ---------------------------------------------------------------------------

  /** The nested `to_int_safe`: `int(x)`, or 0 when `int` raises. It never raises. */
  function ToIntSafe(x: string): int
  {
    match PyInt.ParseInt(x)
    case Some(n) => n
    case None => 0
  }

  /** A cell holding `str(n)` is read back as n. */
  lemma ToIntSafeReadsIntegers(n: int)
    ensures ToIntSafe(PyInt.IntToString(n)) == n
  {
    PyInt.ParseIntRoundTrip(n);
  }

  /** A decimal cell such as "74.5" is read as 0, and so is an empty cell. */
  lemma ToIntSafeDefaultsToZero(x: string)
    requires '.' in x || x == ""
    ensures ToIntSafe(x) == 0
  {
    if '.' in x {
      PyInt.ParseIntRejectsDecimalPoint(x);
    } else {
      PyInt.ParseIntRejectsBlank(x);
    }
  }

  /**
   * The remark for a course with `totalHours` T, `totalPresent` P and the
   * verbatim percentage column `perc`, in whole numbers: no remark arithmetic
   * when T <= 0; when perc <= 75, max(0, 3T - 4P) classes to attend; otherwise
   * max(0, floor((4P - 3T) / 3)) classes to bunk. ComputeRemark shows that the
   * source's real-number formulas come to exactly these counts.
   */
  function RemarkFor(totalHours: int, totalPresent: int, perc: int): (r: Remark)
    ensures r.ClassToAttend? <==> totalHours <= 0 || perc <= 75
    ensures totalHours <= 0 ==> r == ClassToAttend(0)
    ensures r.ClassToAttend? ==> r.classToAttend >= 0
    ensures r.ClassToBunk? ==> r.classToBunk >= 0
  {
    if totalHours <= 0 then ClassToAttend(0)
    else if perc <= 75 then
      var d := 3 * totalHours - 4 * totalPresent;
      ClassToAttend(if d > 0 then d else 0)
    else
      var d := 4 * totalPresent - 3 * totalHours;
      ClassToBunk(if d > 0 then d / 3 else 0)
  }

  /** `math.ceil((0.75 * T - P) / (1 - 0.75))` is exactly 3T - 4P. */
  lemma AttendCountClosedForm(totalHours: int, totalPresent: int)
    ensures PyMath.Ceil((THRESHOLD * totalHours as real - totalPresent as real) / (1.0 - THRESHOLD))
         == 3 * totalHours - 4 * totalPresent
  {
    var x := (THRESHOLD * totalHours as real - totalPresent as real) / (1.0 - THRESHOLD);
    assert x == (3 * totalHours - 4 * totalPresent) as real;
  }

  /** `math.floor((P - 0.75 * T) / 0.75)` is floor((4P - 3T) / 3). */
  lemma BunkCountClosedForm(totalHours: int, totalPresent: int)
    ensures PyMath.Floor((totalPresent as real - THRESHOLD * totalHours as real) / THRESHOLD)
         == (4 * totalPresent - 3 * totalHours) / 3
  {
    var d := 4 * totalPresent - 3 * totalHours;
    var x := (totalPresent as real - THRESHOLD * totalHours as real) / THRESHOLD;
    assert x == d as real / 3.0;
    var q := d / 3;
    assert d == 3 * q + d % 3 && 0 <= d % 3 < 3;
    assert q as real <= x < (q + 1) as real;
  }

  /**
   * Attending `classToAttend` more classes (and attending all of them) brings
   * the student to the threshold, and one class fewer would not.
   */
  lemma AttendRemarkReachesThreshold(totalHours: int, totalPresent: int, perc: int)
    requires totalHours > 0 && perc <= 75
    ensures var n := RemarkFor(totalHours, totalPresent, perc).classToAttend;
      (totalPresent + n) as real >= THRESHOLD * (totalHours + n) as real &&
      (n > 0 ==> (totalPresent + n - 1) as real < THRESHOLD * (totalHours + n - 1) as real)
  {
  }

  /**
   * For a student at or above the threshold, bunking `classToBunk` more
   * classes keeps them at the threshold, and bunking one more would not.
   */
  lemma BunkRemarkKeepsThreshold(totalHours: int, totalPresent: int, perc: int)
    requires totalHours > 0 && perc > 75
    requires totalPresent as real >= THRESHOLD * totalHours as real
    ensures var n := RemarkFor(totalHours, totalPresent, perc).classToBunk;
      totalPresent as real >= THRESHOLD * (totalHours + n) as real &&
      totalPresent as real < THRESHOLD * (totalHours + n + 1) as real
  {
    var d := 4 * totalPresent - 3 * totalHours;
    assert d == 3 * (d / 3) + d % 3 && 0 <= d % 3 < 3;
  }

  // ---------------------------------------------------------------------------
  // Rows to records
  // ---------------------------------------------------------------------------

  /** The record built from one data row with at least six cells. */
  function RecordOf(row: Row): AttendanceRecord
    requires |row| >= 6
  {
    var totalHours := ToIntSafe(row[1]);
    var totalPresent := ToIntSafe(row[4]);
    var perc := ToIntSafe(row[5]);
    AttendanceRecord(
      row[0], totalHours, ToIntSafe(row[2]), ToIntSafe(row[3]), totalPresent, perc,
      if |row| > 8 then row[8] else "",
      if |row| > 9 then row[9] else "",
      RemarkFor(totalHours, totalPresent, perc))
  }

  /** A row the loop can index up to `row[5]`. */
  predicate HasSixCells(row: Row)
  {
    |row| >= 6
  }

  /**
   * The loop of `_process_attendance_table` from row `i` on: one record per
   * row, in order, or the IndexError of the first row with fewer than six cells.
   */
  function ProcessFrom(raw: seq<Row>, i: nat): Result<seq<AttendanceRecord>, ProcessError>
    requires i <= |raw|
  {
    Rows.MapAll(HasSixCells, RecordOf, RowTooShort, raw, i)
  }

  /** `_process_attendance_table(raw_data)`: row 0 is the header; the data rows are processed in order. */
  function ProcessedAttendance(raw: seq<Row>): Result<seq<AttendanceRecord>, ProcessError>
  {
    if |raw| == 0 then Ok([]) else ProcessFrom(raw, 1)
  }

  /** Every data row (all rows after the header) has the six cells indexed up to `row[5]`. */
  predicate DataRowsLongEnough(raw: seq<Row>)
  {
    forall k :: 1 <= k < |raw| ==> |raw[k]| >= 6
  }

  /**
   * `_process_attendance_table(raw_data)` raises exactly when some data row has
   * fewer than six cells; otherwise the header row never becomes a record and
   * data row k + 1 becomes record k, so an empty or header-only table gives no records.
   */
  lemma ProcessedAttendanceMeaning(raw: seq<Row>)
    ensures ProcessedAttendance(raw).Ok? <==> DataRowsLongEnough(raw)
    ensures ProcessedAttendance(raw).Ok? ==>
      var records := ProcessedAttendance(raw).value;
      |records| == (if |raw| == 0 then 0 else |raw| - 1) &&
      forall k :: 0 <= k < |records| ==> records[k] == RecordOf(raw[k + 1])
  {
    if |raw| > 0 {
      Rows.MapAllSucceeds(HasSixCells, RecordOf, RowTooShort, raw, 1);
      if ProcessedAttendance(raw).Ok? {
        var records := ProcessedAttendance(raw).value;
        forall k | 0 <= k < |records| ensures records[k] == RecordOf(raw[k + 1]) {
          assert records[(k + 1) - 1] == RecordOf(raw[k + 1]);
        }
      }
    }
  }

  /** The remark arithmetic inside the loop of `_process_attendance_table`. */
  method ComputeRemark(totalHours: int, totalPresent: int, perc: int) returns (r: Remark)
    ensures r == RemarkFor(totalHours, totalPresent, perc)
  {
    if totalHours <= 0 {
      r := ClassToAttend(0);
    } else if perc <= 75 {
      var needToAttend := PyMath.Ceil((THRESHOLD * totalHours as real - totalPresent as real) / (1.0 - THRESHOLD));
      AttendCountClosedForm(totalHours, totalPresent);
      if needToAttend < 0 {
        needToAttend := 0;
      }
      r := ClassToAttend(needToAttend);
    } else {
      var canBunk := PyMath.Floor((totalPresent as real - THRESHOLD * totalHours as real) / THRESHOLD);
      BunkCountClosedForm(totalHours, totalPresent);
      if canBunk < 0 {
        canBunk := 0;
      }
      r := ClassToBunk(canBunk);
    }
  }

  /** The body of the loop in `_process_attendance_table`: fill `temp` field by field. */
  method RowToRecord(row: Row) returns (temp: AttendanceRecord)
    requires |row| >= 6
    ensures temp == RecordOf(row)
  {
    var totalHours := ToIntSafe(row[1]);
    var exemptionHours := ToIntSafe(row[2]);
    var totalAbsent := ToIntSafe(row[3]);
    var totalPresent := ToIntSafe(row[4]);
    var perc := ToIntSafe(row[5]);
    var periodFrom := if |row| > 8 then row[8] else "";
    var periodTo := if |row| > 9 then row[9] else "";
    var remark := ComputeRemark(totalHours, totalPresent, perc);
    temp := AttendanceRecord(row[0], totalHours, exemptionHours, totalAbsent,
                             totalPresent, perc, periodFrom, periodTo, remark);
  }

  /** `_process_attendance_table`, as the source's loop that fills `temp` and appends it to `results`. */
  method ProcessAttendanceTable(raw: seq<Row>) returns (r: Result<seq<AttendanceRecord>, ProcessError>)
    ensures r == ProcessedAttendance(raw)
  {
    if |raw| == 0 {
      return Ok([]);
    }
    var results: seq<AttendanceRecord> := [];
    var i := 1;
    Rows.PrependNothing(ProcessFrom(raw, i));
    while i < |raw|
      invariant 1 <= i <= |raw|
      invariant ProcessedAttendance(raw) == Rows.Prepend(results, ProcessFrom(raw, i))
    {
      var row := raw[i];
      if |row| < 6 {
        // row[k] for some k <= 5 raises IndexError
        return Err(RowTooShort);
      }
      var temp := RowToRecord(row);
      Rows.PrependOne(results, temp, ProcessFrom(raw, i + 1));
      results := results + [temp];
      i := i + 1;
    }
    assert results + [] == results;
    return Ok(results);
  }

  // ---------------------------------------------------------------------------
  // Outcome of one attendance fetch (return_attendance)
  // ---------------------------------------------------------------------------

  predicate IsNonEmpty(s: string)
  {
    s != ""
  }

  /** `[ele for ele in cols if ele]`: the row with its empty cells removed. */
  function NonEmptyCells(cols: Row): (r: Row)
    ensures forall k :: 0 <= k < |r| ==> r[k] != ""
  {
    Rows.Filter(IsNonEmpty, cols)
  }

  /**
   * The comprehension keeps each non-empty cell, drops each empty one, and
   * keeps the order of the row: cleaning a row piece by piece cleans it whole.
   */
  lemma NonEmptyCellsInOrder(a: Row, b: Row, cell: string)
    ensures NonEmptyCells([cell]) == if cell != "" then [cell] else []
    ensures NonEmptyCells(a + b) == NonEmptyCells(a) + NonEmptyCells(b)
  {
    Rows.FilterOne(IsNonEmpty, cell);
    Rows.FilterAppend(IsNonEmpty, a, b);
  }

  /** Every row of a table with its empty cells removed. */
  function CleanTable(rows: seq<Row>): seq<Row>
  {
    seq(|rows|, k requires 0 <= k < |rows| => NonEmptyCells(rows[k]))
  }

  /**
   * What the portal answered, as far as return_attendance looks at it: the
   * `cssbody` table's rows if there is one, and the markup of the span with
   * id `Message` (`str(message_span)`) if there is one.
   */
  datatype AttendancePage = AttendancePage(table: Option<seq<Row>>, messageSpan: Option<string>)

  /** return_attendance's result: the records (the session handle is not modelled) or an error string. */
  datatype AttendanceOutcome = Fetched(records: seq<AttendanceRecord>) | Failed(message: string)

  predicate ShowsOnProcess(page: AttendancePage)
  {
    page.messageSpan.Some? && PyText.Contains(page.messageSpan.value, ON_PROCESS)
  }

  /**
   * return_attendance after the network calls: `formTokensFound` says whether the
   * login page carried the three hidden fields (their lookup raises otherwise),
   * `loginStatus` is the status code of the login POST, `page` the attendance page.
   */
  function ReturnAttendance(formTokensFound: bool, loginStatus: int, page: AttendancePage): (r: AttendanceOutcome)
    ensures r.Fetched? <==>
      formTokensFound && loginStatus == 200 && page.table.Some? &&
      ProcessedAttendance(CleanTable(page.table.value)).Ok? &&
      |ProcessedAttendance(CleanTable(page.table.value)).value| > 0
    ensures r.Fetched? ==> r.records == ProcessedAttendance(CleanTable(page.table.value)).value
    ensures r == Failed(TABLE_UPDATING) <==>
      formTokensFound && loginStatus == 200 && page.table.None? && ShowsOnProcess(page)
    ensures r == Failed(NO_TABLE) <==>
      formTokensFound && loginStatus == 200 && page.table.None? && !ShowsOnProcess(page)
    ensures r == Failed(NO_DATA) <==>
      formTokensFound && loginStatus == 200 && page.table.Some? &&
      ProcessedAttendance(CleanTable(page.table.value)) == Ok([])
    ensures r == Failed(TRY_AGAIN) <==>
      !formTokensFound || loginStatus != 200 ||
      (page.table.Some? && ProcessedAttendance(CleanTable(page.table.value)).Err?)
  {
    if !formTokensFound then Failed(TRY_AGAIN)
    else if loginStatus != 200 then Failed(TRY_AGAIN)
    else
      match page.table
      case None => if ShowsOnProcess(page) then Failed(TABLE_UPDATING) else Failed(NO_TABLE)
      case Some(rows) =>
        match ProcessedAttendance(CleanTable(rows))
        case Err(_) => Failed(TRY_AGAIN)
        case Ok(records) => if |records| == 0 then Failed(NO_DATA) else Fetched(records)
  }

  /**
   * A data row that keeps fewer than six non-empty cells makes the fetch answer
   * "Try again after some time" (the IndexError is caught).
   */
  lemma ShortRowMeansTryAgain(page: AttendancePage, k: nat)
    requires page.table.Some? && 1 <= k < |page.table.value|
    requires |NonEmptyCells(page.table.value[k])| < 6
    ensures ReturnAttendance(true, 200, page) == Failed(TRY_AGAIN)
  {
    var raw := CleanTable(page.table.value);
    assert |raw[k]| < 6;
    ProcessedAttendanceMeaning(raw);
  }

  /** A table with no data row answers "No attendance data found". */
  lemma HeaderOnlyMeansNoData(page: AttendancePage)
    requires page.table.Some? && |page.table.value| <= 1
    ensures ReturnAttendance(true, 200, page) == Failed(NO_DATA)
  {
  }

  /** A successful fetch returns one record per data row, built from that row's non-empty cells. */
  lemma FetchedRecordsFollowDataRows(formTokensFound: bool, loginStatus: int, page: AttendancePage)
    requires ReturnAttendance(formTokensFound, loginStatus, page).Fetched?
    ensures var rows := page.table.value;
      var records := ReturnAttendance(formTokensFound, loginStatus, page).records;
      (forall k :: 1 <= k < |rows| ==> |NonEmptyCells(rows[k])| >= 6) &&
      |records| == |rows| - 1 &&
      forall k :: 0 <= k < |records| ==> records[k] == RecordOf(NonEmptyCells(rows[k + 1]))
  {
    var rows := page.table.value;
    var raw := CleanTable(rows);
    ProcessedAttendanceMeaning(raw);
    assert forall k :: 1 <= k < |rows| ==> raw[k] == NonEmptyCells(rows[k]);
  }

  // ---------------------------------------------------------------------------
  // Course titles (return_course_title_map)
  // ---------------------------------------------------------------------------

  /** The map filled by the loop over data rows: each row with two cells maps its first to its second. */
  function CourseEntries(data: seq<Row>): map<string, string>
  {
    if |data| == 0 then map[]
    else
      var m := CourseEntries(data[..|data| - 1]);
      var row := data[|data| - 1];
      if |row| < 2 then m else m[row[0] := row[1]]
  }

  /** return_course_title_map: no table gives `{}`; otherwise the header row is skipped. */
  function CourseTitleMapOf(table: Option<seq<Row>>): map<string, string>
  {
    match table
    case None => map[]
    case Some(rows) => CourseEntries(Rows.Tail(CleanTable(rows)))
  }

  /** Row i of `data` names course `code` with a title. */
  predicate NamesCourse(data: seq<Row>, i: int, code: string)
  {
    0 <= i < |data| && |data[i]| >= 2 && data[i][0] == code
  }

  /** The codes in the map are exactly the first cells of rows with at least two cells. */
  lemma {:induction false} CourseEntriesKeys(data: seq<Row>, code: string)
    ensures code in CourseEntries(data) <==> exists i :: NamesCourse(data, i, code)
    decreases |data|
  {
    if |data| > 0 {
      var init, last := data[..|data| - 1], data[|data| - 1];
      CourseEntriesKeys(init, code);
      if NamesCourse(data, |data| - 1, code) {
        assert code in CourseEntries(data);
      } else {
        assert code in CourseEntries(data) <==> code in CourseEntries(init);
        if code in CourseEntries(init) {
          var i :| NamesCourse(init, i, code);
          assert NamesCourse(data, i, code);
        }
        if i :| NamesCourse(data, i, code) {
          assert NamesCourse(init, i, code);
        }
      }
    }
  }

  /** A code maps to the second cell of the LAST row that names it: later rows overwrite earlier ones. */
  lemma {:induction false} CourseEntriesLastWins(data: seq<Row>, code: string, i: int)
    requires NamesCourse(data, i, code)
    requires forall j :: i < j < |data| ==> !NamesCourse(data, j, code)
    ensures code in CourseEntries(data) && CourseEntries(data)[code] == data[i][1]
    decreases |data|
  {
    var init, last := data[..|data| - 1], data[|data| - 1];
    if i < |data| - 1 {
      assert !NamesCourse(data, |data| - 1, code);
      forall j | i < j < |init| ensures !NamesCourse(init, j, code) {
        assert !NamesCourse(data, j, code);
      }
      CourseEntriesLastWins(init, code, i);
    }
  }

  /** The first loop of return_course_title_map: every row with its empty cells removed. */
  method CleanRows(rows: seq<Row>) returns (data: seq<Row>)
    ensures data == CleanTable(rows)
  {
    data := [];
    for k := 0 to |rows|
      invariant data == CleanTable(rows[..k])
    {
      data := data + [NonEmptyCells(rows[k])];
    }
    assert rows[..|rows|] == rows;
  }

  /** return_course_title_map after the page fetch: the loop that fills `course_map`. */
  method CourseTitleMap(table: Option<seq<Row>>) returns (courseMap: map<string, string>)
    ensures courseMap == CourseTitleMapOf(table)
  {
    if table.None? {
      return map[];
    }
    var data := CleanRows(table.value);
    courseMap := map[];
    if |data| == 0 {
      return;
    }
    for i := 1 to |data|
      invariant courseMap == CourseEntries(data[1..i])
    {
      assert data[1..i + 1][..i - 1] == data[1..i];
      var row := data[i];
      if |row| < 2 {
        continue;
      }
      var code := row[0];
      var title := row[1];
      courseMap := courseMap[code := title];
    }
    assert data[1..|data|] == Rows.Tail(data);
  }

  // ---------------------------------------------------------------------------
  // Weekly grid (return_weekly_timetable)
  // ---------------------------------------------------------------------------

  /** A `td` of the grid, as the sequence of its stripped strings. */
  type Cell = seq<string>

  /** One day of the grid: its name and one slot text per cell after the first. */
  datatype DayRow = DayRow(day: string, slots: seq<string>)

  /** The grid: `{}` (no table, or fewer than three rows) or the periods, time ranges and days. */
  datatype WeeklyGrid = NoTimetable | Weekly(periods: seq<string>, timeRanges: seq<string>, days: seq<DayRow>)

  /** `td.get_text(strip=True)`: the cell's stripped strings run together. */
  function CellText(cell: Cell): string
  {
    PyText.Concat(cell)
  }

  /** The texts of a header row's cells. */
  function HeaderTexts(cells: seq<Cell>): seq<string>
  {
    seq(|cells|, k requires 0 <= k < |cells| => CellText(cells[k]))
  }

  /** The day name: the first cell's text with non-breaking spaces removed, then stripped. */
  function DayName(cell: Cell): string
  {
    PyText.Strip(PyText.RemoveChar(CellText(cell), '\U{A0}'))
  }

  /**
   * A day name is the cell's text without its non-breaking spaces, cut down
   * to the slice between the whitespace at its ends: it holds no non-breaking
   * space, neither starts nor ends with whitespace, and keeps every other
   * visible character of the cell's text.
   */
  lemma DayNameClean(cell: Cell)
    ensures var t := PyText.RemoveChar(CellText(cell), '\U{A0}');
      exists i, j :: 0 <= i <= j <= |t| && DayName(cell) == t[i..j] &&
        (forall k :: 0 <= k < i ==> PyText.IsSpace(t[k])) && (forall k :: j <= k < |t| ==> PyText.IsSpace(t[k]))
    ensures '\U{A0}' !in DayName(cell)
    ensures |DayName(cell)| > 0 ==>
      !PyText.IsSpace(DayName(cell)[0]) && !PyText.IsSpace(DayName(cell)[|DayName(cell)| - 1])
    ensures forall c :: c in CellText(cell) && !PyText.IsSpace(c) ==> c in DayName(cell)
  {
    var t := PyText.RemoveChar(CellText(cell), '\U{A0}');
    PyText.RemoveCharDrops(CellText(cell), '\U{A0}');
    PyText.StripTrims(t);
  }

  /** The cell's strings, each stripped again. */
  function SlotParts(cell: Cell): seq<string>
  {
    seq(|cell|, k requires 0 <= k < |cell| => PyText.Strip(cell[k]))
  }

  /** A slot: "" for no strings, the single string, or the strings joined with " - ". */
  function SlotText(cell: Cell): string
  {
    var parts := SlotParts(cell);
    if |parts| == 0 then ""
    else if |parts| == 1 then parts[0]
    else PyText.Join(" - ", parts)
  }

  /** The slot texts of the cells `tds[j..]`, one per cell. */
  function SlotsFrom(tds: seq<Cell>, j: nat): (slots: seq<string>)
    requires j <= |tds|
    ensures |slots| == |tds| - j
    decreases |tds| - j
  {
    if j == |tds| then [] else [SlotText(tds[j])] + SlotsFrom(tds, j + 1)
  }

  /** `SlotsFrom` is the comprehension of `SlotText` over the cells from j on. */
  lemma {:induction false} SlotsFromIsMap(tds: seq<Cell>, j: nat)
    requires j <= |tds|
    ensures SlotsFrom(tds, j) == Rows.Map(SlotText, tds, j)
    decreases |tds| - j
  {
    if j < |tds| {
      SlotsFromIsMap(tds, j + 1);
    }
  }

  /** Slot k of `SlotsFrom(tds, j)` is the slot text of cell j + k. */
  lemma SlotsFromCells(tds: seq<Cell>, j: nat)
    requires j <= |tds|
    ensures forall k :: 0 <= k < |tds| - j ==> SlotsFrom(tds, j)[k] == SlotText(tds[j + k])
  {
    SlotsFromIsMap(tds, j);
    Rows.MapAt(SlotText, tds, j);
    forall k | 0 <= k < |tds| - j ensures SlotsFrom(tds, j)[k] == SlotText(tds[j + k]) {
      assert (j + k) - j == k;
    }
  }

  /** The day of a grid row with at least one cell: the day name, then one slot per later cell. */
  function DayOf(tds: seq<Cell>): DayRow
    requires |tds| > 0
  {
    DayRow(DayName(tds[0]), SlotsFrom(tds, 1))
  }

  /** A grid row the loop does not skip: one with at least one cell. */
  predicate HasCells(tds: seq<Cell>)
  {
    |tds| > 0
  }

  /** The loop over `rows[i..]`: a row without cells is skipped, every other row gives its day. */
  function DaysFrom(rows: seq<seq<Cell>>, i: nat): seq<DayRow>
    requires i <= |rows|
  {
    Rows.MapKept(HasCells, DayOf, rows, i)
  }

  /** return_weekly_timetable after the page fetch, over the `DtStfTimtab` table's rows. */
  function WeeklyTimetableOf(table: Option<seq<seq<Cell>>>): WeeklyGrid
  {
    match table
    case None => NoTimetable
    case Some(rows) =>
      if |rows| < 3 then NoTimetable
      else Weekly(Rows.Tail(HeaderTexts(rows[0])), Rows.Tail(HeaderTexts(rows[1])), DaysFrom(rows, 2))
  }

  /**
   * The grid exists exactly when the table has at least three rows. Each day
   * comes from a later row with at least one cell and has one slot per cell
   * after the first; when no later row is empty, day k comes from row k + 2.
   */
  lemma WeeklyDaysFollowRows(table: Option<seq<seq<Cell>>>)
    ensures WeeklyTimetableOf(table).Weekly? <==> table.Some? && |table.value| >= 3
    ensures WeeklyTimetableOf(table).Weekly? ==>
      var rows, days := table.value, WeeklyTimetableOf(table).days;
      |days| <= |rows| - 2 &&
      (forall d :: d in days ==>
         exists k :: 2 <= k < |rows| && |rows[k]| > 0 && |d.slots| == |rows[k]| - 1 && d == DayOf(rows[k]))
    ensures WeeklyTimetableOf(table).Weekly? && (forall k :: 2 <= k < |table.value| ==> |table.value[k]| > 0) ==>
      var rows, days := table.value, WeeklyTimetableOf(table).days;
      |days| == |rows| - 2 && forall k :: 0 <= k < |days| ==> days[k] == DayOf(rows[k + 2])
    ensures WeeklyTimetableOf(table).Weekly? ==>
      exists idx :: Rows.ComesFromPositions(HasCells, DayOf, table.value, 2, WeeklyTimetableOf(table).days, idx)
  {
    if table.Some? && |table.value| >= 3 {
      var rows := table.value;
      Rows.MapKeptPositions(HasCells, DayOf, rows, 2);
      Rows.MapKeptFrom(HasCells, DayOf, rows, 2);
      if forall k :: 2 <= k < |rows| ==> |rows[k]| > 0 {
        Rows.MapKeptAll(HasCells, DayOf, rows, 2);
      }
    }
  }

  /** The inner loop of return_weekly_timetable: one slot text per cell after the first. */
  method DaySlots(tds: seq<Cell>) returns (slots: seq<string>)
    requires |tds| > 0
    ensures slots == SlotsFrom(tds, 1)
  {
    slots := [];
    for j := 1 to |tds|
      invariant slots + SlotsFrom(tds, j) == SlotsFrom(tds, 1)
    {
      var parts := SlotParts(tds[j]);
      var slot: string;
      if |parts| == 0 {
        slot := "";
      } else if |parts| == 1 {
        slot := parts[0];
      } else {
        slot := PyText.Join(" - ", parts);
      }
      assert SlotsFrom(tds, j) == [slot] + SlotsFrom(tds, j + 1);
      assert (slots + [slot]) + SlotsFrom(tds, j + 1) == slots + SlotsFrom(tds, j);
      slots := slots + [slot];
    }
    assert slots + [] == slots;
  }

  /** return_weekly_timetable: the loop over the rows after the two header rows that builds `days`. */
  method WeeklyTimetable(table: Option<seq<seq<Cell>>>) returns (w: WeeklyGrid)
    ensures w == WeeklyTimetableOf(table)
  {
    if table.None? {
      return NoTimetable;
    }
    var rows := table.value;
    if |rows| < 3 {
      return NoTimetable;
    }
    var periods := Rows.Tail(HeaderTexts(rows[0]));
    var timeRanges := Rows.Tail(HeaderTexts(rows[1]));
    var days: seq<DayRow> := [];
    assert days + DaysFrom(rows, 2) == DaysFrom(rows, 2);
    for i := 2 to |rows|
      invariant days + DaysFrom(rows, i) == DaysFrom(rows, 2)
    {
      var tds := rows[i];
      if |tds| == 0 {
        assert DaysFrom(rows, i) == [] + DaysFrom(rows, i + 1);
        assert [] + DaysFrom(rows, i + 1) == DaysFrom(rows, i + 1);
        continue;
      }
      var dayText := DayName(tds[0]);
      var slots := DaySlots(tds);
      var day := DayRow(dayText, slots);
      assert DaysFrom(rows, i) == [day] + DaysFrom(rows, i + 1);
      assert (days + [day]) + DaysFrom(rows, i + 1) == days + DaysFrom(rows, i);
      days := days + [day];
    }
    assert days + [] == days;
    return Weekly(periods, timeRanges, days);
  }
}
