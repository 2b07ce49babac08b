# Attendance bunker helper: a Dafny model

The system logs a student into the college portal, reads the attendance table
and tells the student, course by course, how many classes they must still
attend to reach 75% attendance or how many they can miss ("bunk") and stay at
75% or above. It also reads the timetable pages and has a "what if" endpoint
that projects the percentage after some future classes.

This project models the part of the system that turns tables into answers:

- `bunker_mod.dfy` (module `BunkerMod`, from `bunker_mod.py`):
  - `_process_attendance_table` with its nested `to_int_safe`, and the remark
    arithmetic;
  - the outcome of `return_attendance`: the records or one of its error strings;
  - the loop of `return_course_title_map`;
  - the loops of `return_weekly_timetable`.
- `app.dfy` (module `App`, from `app.py`): the arithmetic of the `what_if` route.
- `scraper.dfy` (module `Scraper`, from `scraper.py`): the `'Invalid'` test of
  `login`, the row filters of `fetch_attendance` and `fetch_timetable`, and
  `parse_detailed_timetable`.
- Supporting modules give the Python built-ins the code relies on:
  - `pyint.dfy`: `int()` on a string (a one-character-at-a-time scanner) and `str()` of an int;
  - `pytext.dfy`: `str.isspace`, `strip`, `in`, `join`, `replace`;
  - `pymath.dfy`: `math.ceil` and `math.floor`;
  - `rows.dfy`: the list idioms of the scraping loops (`xs[1:]`, a filtered
    comprehension, and a loop that raises at the first bad element);
  - `wrappers.dfy`: `Option` and `Result`.

Pages are not fetched or parsed. Each operation starts from the table it looked
up: `None` when the page has no such table, otherwise its rows, each row being
the stripped texts of its cells. The loops of the source are Dafny methods
(`ProcessAttendanceTable`, `CourseTitleMap`, `WeeklyTimetable`, `FetchAttendance`, ...).
Each is proved equal to a specification function (`ProcessedAttendance`,
`CourseTitleMapOf`, `WeeklyTimetableOf`, `FetchAttendanceOf`, ...), and lemmas
state what those functions promise.

Where the code behaves in ways one might not expect, the model follows it:

- `fetch_attendance` and `fetch_timetable` silently skip rows that are too
  short. They do not fail on them.
- `_process_attendance_table` raises on a data row with fewer than six non-empty
  cells. `return_attendance` turns that into "Try again after some time".
- `to_int_safe` reads unparsable cells as 0. `fetch_attendance` fails the whole
  call on them.
- `what_if` does not clamp its counts to be non-negative, and it mixes a
  percentage threshold with a fractional one (see Findings).
- `return_attendance` does not look for the "Invalid" marker. After a login
  answered with status 200 the code goes on to read the attendance page; if
  that page has no attendance table and no "On Process" message, the answer is
  "No attendance table found".

## Model

| member | source | states |
|---|---|---|
| PyInt.ParseIntRoundTrip | bunker_mod.py:28-32 | `int(str(n)) == n` for every integer n, so a cell holding a written integer is read back exactly |
| PyInt.ParseIntRejectsDecimalPoint | bunker_mod.py:28-32 | `int` raises on any string containing '.', such as "74.5" |
| PyInt.ParseIntRejectsBlank | bunker_mod.py:28-32 | `int` raises on the empty string and on whitespace-only strings |
| PyInt.ParseIntSkipsLeadingSpace | bunker_mod.py:28-32 | a leading whitespace character that `int` skips (any `isspace` character except U+001C to U+001F) does not change what `int` returns |
| PyInt.ParseIntRejectsSeparator | bunker_mod.py:28-32 | a leading U+001C to U+001F, which `isspace` accepts, makes `int` raise, so `to_int_safe` gives 0 |
| PyText.StripTrims | bunker_mod.py:225 | `strip` removes whitespace only at the ends: the result is a slice `s[i:j]` with only whitespace before i and from j on, it neither starts nor ends with whitespace, and every non-space character of the input survives |
| PyText.ContainsIff | scraper.py:32 | Python's substring test `sub in s` holds exactly when `sub` occurs at some index of `s` |
| PyText.RemoveCharDrops | bunker_mod.py:225 | `replace("\xa0", "")` leaves no non-breaking space, keeps every other character and never lengthens the text |
| PyText.RemoveCharOne | bunker_mod.py:225 | `replace` on a single character removes it exactly when it is the removed character |
| PyText.RemoveCharAppend | bunker_mod.py:225 | `replace` on `a + b` is `replace` on `a` followed by `replace` on `b`, so the kept characters keep their order and their number |
| BunkerMod.ToIntSafeReadsIntegers | bunker_mod.py:28-32 | `to_int_safe` returns n for a cell holding `str(n)` |
| BunkerMod.ToIntSafeDefaultsToZero | bunker_mod.py:28-32 | `to_int_safe` returns the default 0 for a decimal or an empty cell instead of raising |
| BunkerMod.RemarkFor | bunker_mod.py:46-74 | the remark is `class_to_attend` exactly when total hours <= 0 or the percentage column is <= 75; it is exactly `{class_to_attend: 0}` when total hours <= 0; both counts are never negative |
| BunkerMod.AttendCountClosedForm | bunker_mod.py:59-62 | `ceil((0.75T - P) / (1 - 0.75))` is the whole number 3T - 4P |
| BunkerMod.BunkCountClosedForm | bunker_mod.py:68-71 | `floor((P - 0.75T) / 0.75)` is floor((4P - 3T) / 3) |
| BunkerMod.AttendRemarkReachesThreshold | bunker_mod.py:57-65 | attending `class_to_attend` more classes reaches 75%, and one fewer would not |
| BunkerMod.BunkRemarkKeepsThreshold | bunker_mod.py:66-74 | for a student at or above 75%, missing `class_to_bunk` more classes keeps them at 75%, and missing one more would not |
| BunkerMod.ComputeRemark | bunker_mod.py:49-74 | the source's real-number formulas with their clamps to 0 give exactly `RemarkFor` |
| BunkerMod.RowToRecord | bunker_mod.py:22-76 | filling `temp` field by field gives the record of the row: cell 0 as the code, cells 1-5 through `to_int_safe`, cells 8 and 9 or "" when missing, and the remark |
| BunkerMod.ProcessAttendanceTable | bunker_mod.py:9-78 | the loop over rows 1.. returns exactly `ProcessedAttendance(raw)`, including the IndexError of a short row |
| BunkerMod.ProcessedAttendanceMeaning | bunker_mod.py:14-78 | the table processes without error exactly when every data row has six cells; then row 0 never becomes a record, data row k + 1 becomes record k, and an empty or header-only table gives no records |
| BunkerMod.NonEmptyCells | bunker_mod.py:136 | the comprehension keeps only non-empty cells |
| BunkerMod.NonEmptyCellsInOrder | bunker_mod.py:136 | a single cell is kept exactly when it is non-empty, and cleaning `a + b` gives the cleaned `a` followed by the cleaned `b`: order and repetitions of the kept cells are those of the row |
| BunkerMod.ReturnAttendance | bunker_mod.py:116-145 | each outcome with both directions: records exactly when the login answered 200, the table exists and processes to a non-empty list; "Table is being updated" exactly when the table is missing and the Message span contains "On Process"; "No attendance table found" when it is missing otherwise; "No attendance data found" for an empty list; "Try again after some time" for a missing form field, a non-200 login or a processing error |
| BunkerMod.ShortRowMeansTryAgain | bunker_mod.py:136-145 | a data row that keeps fewer than six non-empty cells makes the fetch answer "Try again after some time" |
| BunkerMod.HeaderOnlyMeansNoData | bunker_mod.py:138-140 | a table with at most the header row answers "No attendance data found" |
| BunkerMod.FetchedRecordsFollowDataRows | bunker_mod.py:131-142 | a successful fetch has one record per data row, built from that row's non-empty cells, in table order |
| BunkerMod.CleanRows | bunker_mod.py:163-168 | every row becomes its list of non-empty cells, in order |
| BunkerMod.CourseTitleMap | bunker_mod.py:159-180 | the loop builds exactly `CourseTitleMapOf(table)`, and `{}` for a missing table |
| BunkerMod.CourseEntriesKeys | bunker_mod.py:171-178 | a code is a key of the map exactly when some data row with two or more cells starts with it |
| BunkerMod.CourseEntriesLastWins | bunker_mod.py:171-178 | a code maps to the title of the last data row that names it |
| BunkerMod.DayNameClean | bunker_mod.py:225 | a day name is the slice of the cell's text without non-breaking spaces that leaves only whitespace outside it; it has no non-breaking space, no whitespace at either end, and every non-space character of the cell's text |
| BunkerMod.SlotsFrom | bunker_mod.py:228-237 | one slot per cell after the first |
| BunkerMod.SlotsFromCells | bunker_mod.py:228-237 | slot k is the slot text of cell j + k: the slots follow the cells one for one, in order |
| BunkerMod.DaySlots | bunker_mod.py:226-237 | the inner loop builds exactly `SlotsFrom(tds, 1)`: "" for a cell without strings, the single string, or the strings joined with " - " |
| BunkerMod.WeeklyTimetable | bunker_mod.py:201-245 | the loop builds exactly `WeeklyTimetableOf(table)`: `{}` for a missing table or fewer than three rows, else the two header rows without their first cell and the days |
| BunkerMod.WeeklyDaysFollowRows | bunker_mod.py:206-245 | the grid exists exactly when the table has at least three rows; each day comes from a later row with cells and has one slot per cell after the first; when no later row is empty, day k comes from row k + 2; in every case the days are the rows from index 2 on that have cells, each once, in table order, and no such row is skipped |
| App.Percentage | app.py:51-56 | the percentage times the hours is 100 times the present count, and it is 0 without hours |
| App.PercentageAgainstThreshold | app.py:51-60 | with hours, the percentage is at most 75 exactly when 4P <= 3H, and at least 75 exactly when 4P >= 3H |
| App.AttendFormulaAsWritten | app.py:61-63 | `ceil((75H - P) / (1 - 75/100))` is the whole number 300H - 4P |
| App.BunkFormula | app.py:66-68 | `floor((P - 75/100 H) / (75/100))` is floor((4P - 3H) / 3) |
| App.WhatIf | app.py:45-72 | the route's real-number computation gives exactly `WhatIfOf` |
| App.WhatIfStatusFollowsPercentage | app.py:60-69 | the status is `need_attend` exactly when the new percentage is at most 75, as written and as intended |
| App.WhatIfBunkIsGreatest | app.py:65-69 | `classes_to_bunk` is the largest number of classes that can be missed while staying at 75% or above |
| App.WhatIfIntendedAttendIsLeast | app.py:60-64 | with the intended formula, `classes_to_attend` is the least number of attended classes that reaches 75% |
| App.WhatIfAttendOvershoots | app.py:61-63 | as written, `classes_to_attend` exceeds the intended count by 297 per hour held |
| App.WhatIfOvershootExample | app.py:61-63 | 30 of 40 hours then 5 of 10 classes: the route answers 14860 where 10 classes reach 75% |
| App.WhatIfIntendedKeepsTheRest | app.py:51-69 | the intended route differs from the written one only in the attend count |
| Scraper.LoginRefusedIffInvalid | scraper.py:32-33 | once the form is posted, login raises "Invalid username or password" exactly when "Invalid" occurs in the answer |
| Scraper.ParseCourseAttendanceReadsColumns | scraper.py:50-56 | an entry takes course code, total hours, present, percentage and last-updated from columns 0, 1, 4, 5 and 9 |
| Scraper.ParseCourseAttendanceRejectsDecimals | scraper.py:52-54 | a decimal in column 1, 4 or 5 makes the row raise; there is no default |
| Scraper.AttendanceFrom | scraper.py:47-56 | the loop only ever fails with the ValueError of `int` |
| Scraper.FetchAttendanceOf | scraper.py:40-42 | the fetch fails with "Attendance data not available" exactly when there is no table |
| Scraper.AttendanceFromSucceeds | scraper.py:47-56 | the loop succeeds exactly when every row with ten cells parses, and then gives their entries in order |
| Scraper.AttendanceFromFirstError | scraper.py:47-56 | a failing loop reports the error of the first row with ten cells that does not parse |
| Scraper.FetchAttendanceEntriesFromRows | scraper.py:45-56 | the header row is skipped and every entry comes from a later row with at least ten cells; every such row parses, and the entries are exactly those rows, each once, in table order, none skipped |
| Scraper.FetchAttendanceOneEntryPerRow | scraper.py:45-58 | when every later row has ten cells and parses, entry k comes from row k + 1 |
| Scraper.FetchAttendanceFirstError | scraper.py:45-56 | a failed fetch reports the error of the first row after the header that has ten cells and a bad number |
| Scraper.DecimalCellFailsFetch | scraper.py:49-56 | one row with ten cells and a decimal in a number column fails the whole fetch |
| Scraper.FetchAttendance | scraper.py:35-58 | the loop returns exactly `FetchAttendanceOf(table)` |
| Scraper.FetchTimetableOf | scraper.py:65-67 | the fetch fails, with "Timetable not available", exactly when there is no table |
| Scraper.FetchTimetableEntriesFromRows | scraper.py:70-80 | the header row is skipped and every entry holds the first four cells of a later row with at least four cells; the entries are exactly those rows, each once, in table order, none skipped |
| Scraper.FetchTimetableOneEntryPerRow | scraper.py:70-82 | when every later row has four cells, entry k comes from row k + 1 |
| Scraper.FetchTimetable | scraper.py:60-82 | the loop returns exactly `FetchTimetableOf(table)` |
| Scraper.ParseDetailedTimetableOf | scraper.py:105-116 | `None` exactly when there is no table; an error exactly when the table has no row |
| Scraper.DetailedPeriodsFromRows | scraper.py:115-129 | the days are the first row's header texts after the first; every period comes from a later row with cells, with the first cell as the time and the others as the subjects; the periods are exactly the later rows with cells, each once, in table order, none skipped |
| Scraper.DetailedOnePeriodPerRow | scraper.py:119-129 | when no later row is empty, period k comes from row k + 1 |
| Scraper.ParseDetailedTimetable | scraper.py:100-134 | the loop returns exactly `ParseDetailedTimetableOf(table)` |

## Left out

- HTTP and sessions are not modelled. This covers `requests.Session`, the GET and POST calls, the hidden ASP.NET form fields and the session that `return_attendance` returns with the records. The model takes the facts that matter as inputs: whether the three hidden fields were found, the login status code and the answer's text.
- HTML parsing with BeautifulSoup is not modelled: tables arrive as rows of stripped cell texts.
  - `str(message_span)` is taken as a given string.
  - `get_text(strip=True)` of a grid cell is taken to be its stripped strings run together.
  - `row.find_all("td")` is taken to give the row's cells.
- Exceptions in `return_attendance` other than a missing form field and the IndexError of a short row are not modelled. The float overflow is described below; the others come from the network or the parser.
- PyInt.ParseInt: accepts ASCII digits only. Python's `int` also accepts other Unicode decimal digits.
- BunkerMod.ComputeRemark: computes on exact reals. Python converts the counts to floats, so they can round for counts near 2^53. A count of 2^1024 or more makes `THRESHOLD * total_hours` raise OverflowError, which `return_attendance` answers with "Try again after some time". Neither the rounding nor the overflow is modelled.
- PyInt.ParseInt, PyInt.ParseIntRoundTrip and BunkerMod.ToIntSafe: no limit on the number of digits. Python 3.11 and later, and the security releases 3.10.7, 3.9.14, 3.8.14 and 3.7.14, refuse `int()` of a string of more than 4300 digits by default (a ValueError, so `to_int_safe` gives 0) and `str(n)` of such an n. The round trip is stated for every integer, which holds only below that limit in those versions.
- App.WhatIf: computes on exact reals. Float rounding near 2^53 and the OverflowError of counts of 2^1024 or more are not modelled.
  - `round(x, 2)` of the two percentages is not applied.
  - The four numbers arrive as integers. Their `int(data[...])` conversion and a missing key are not modelled; both are Flask request handling.
- `ECampusScraper` is not a Dafny class: its only state is the HTTP session. Its `login` is the function `Scraper.Login` over the answer's text.
- `fetch_basic_timetable` returns fixed mock data.
- The Flask routes other than the `what_if` arithmetic, `index.py` and all JavaScript are web glue and display code.
- BunkerMod.DaySlots: the inner loop of `return_weekly_timetable` is a method of its own, called by the outer loop.

## Findings

| source | as written | input that shows it | evidently intended | confidence | as-written member | corrected member |
|---|---|---|---|---|---|---|
| app.py:61-63 | `math.ceil((threshold * new_total_hours - new_total_present) / (1 - threshold/100))` uses the threshold as 75 in the numerator and as 0.75 in the denominator: 300H - 4P | 40 hours with 30 present, then 10 future classes with 5 attended: 35 of 50 is 70%, and the route answers 14860 | `ceil((0.75H - P) / 0.25)` = 3H - 4P, here 10 (45 of 60 is 75%), as `bunker_mod.py` computes it | high (not executed) | App.WhatIfAttendOvershoots | App.WhatIfIntendedAttendIsLeast |
