# Calendar attendance report: a Dafny model

`kalendarz.py` reads the events of a Google Calendar and writes a two-sheet
Excel report. Each event becomes a record with its title, start, colour id,
API status and a status label derived from the API status and the colour.
The records form a pandas table. Every row then gets the number of rows that
share its title ("Liczba powtórzeń") and an attendance label derived from the
colour alone ("Frekwencja"). A summary table counts the attendance labels and
gives each one's share in percent.

This project models that processing core in Dafny and proves what it
computes:

- `events.dfy` (module `Events`): the loop in `main` that turns events into
  records. It is an imperative `while` loop, proved against the pure
  `Record` function, and it returns the index of the first event that has no
  `start` object (the script's KeyError).
- `counting.dfy` (module `Counting`): `value_counts`, defined by multiset
  multiplicities, and the fact that its counts add up to the input length.
- `frames.dfy` (module `Frames`): the few DataFrame operations the script
  uses. These are building a table from records, reading a column, assigning
  a column, `astype(str)`, a left merge on one key column, and `drop`.
- `repetitions.dfy` (module `RepetitionCount`): `zlicz_wydarzenia`, modelled
  stage by stage, with its overall effect proved.
- `attendance.dfy` (module `AttendanceSummary`): `oblicz_frekwencje`. This
  covers the attendance label of a colour, the new column, and the summary
  with its counts and percentages.
- `export.dfy` (module `Export`): the processing steps of `main` chained as
  the script chains them. The result is either no events, the failing event,
  or the two sheets, each described row by row.

Column names are the datatype `Frames.Label`. `Label.Header()` gives each
label the header the script uses ("Tytuł", "Data startu", "Color ID", …).

The docstring of `zlicz_wydarzenia` says that events are the same when title,
date and time agree. The code groups by the title alone
(kalendarz.py:136-137), and the model follows the code. Two events with the
same title on different days therefore count as repetitions of each other.

## Model

| member | source | states |
|---|---|---|
| Counting.Tally | kalendarz.py:140 | counting one value element by element gives exactly its multiset multiplicity |
| Counting.Unique | kalendarz.py:140 | the distinct values: no duplicates, each one drawn from the input, and every input value present |
| Counting.Tabulate | kalendarz.py:140 | each listed value is paired with its multiplicity in the input |
| Counting.ValueCounts | kalendarz.py:175 | `value_counts`: distinct values, each occurring in the input, every input value listed, each count equal to its multiplicity and positive |
| Counting.TabulateSnoc | kalendarz.py:140 | appending a value raises the table total by one exactly when the value is listed |
| Counting.TabulateCovering | kalendarz.py:140 | a table over distinct values that cover the input accounts for each input element once |
| Counting.ValueCountsTotal | kalendarz.py:179 | the counts of `value_counts` add up to the number of values, so `total` is the row count |
| Frames.Series | kalendarz.py:137 | `df[col]` holds each row's cell of that column, in row order |
| Frames.Assign | kalendarz.py:168 | `df[col] = values` keeps the frame well formed, appends the column only if it is new, and changes just that cell in each row |
| Frames.AsText | kalendarz.py:137 | `astype(str)` turns each cell into the text cell of its `str()` |
| Frames.CellText | kalendarz.py:137 | `str()` leaves a string unchanged, writes an integer in decimal digits that read back as the integer (with a leading "-" when negative), and writes None as "None" |
| Frames.Decimal | kalendarz.py:137 | the decimal digits of a natural number, without a leading zero, read back as that number; this is how `str()` writes the integer cells (the repetition counts) a frame may hold |
| Frames.Without | kalendarz.py:147 | removing a column name leaves exactly the other names, keeps them distinct, and changes nothing when the name is absent |
| Frames.WithoutAt | kalendarz.py:147 | removing a column at position k of distinct columns leaves the columns before it followed by those after it, in order |
| Frames.WithoutKeeps | kalendarz.py:147 | every other column survives the removal |
| Frames.Drop | kalendarz.py:147 | `drop(columns=[col])` keeps every row and removes just that column from the header and from each row |
| Frames.CountsFrame | kalendarz.py:140-141 | `value_counts().reset_index()` with renamed columns is a well-formed two-column frame with one row per table entry |
| Frames.CountsFrameKeys | kalendarz.py:140-141 | the key column of the count frame lists the counted values in table order |
| Frames.CountsFrameUnique | kalendarz.py:140-141 | distinct counted values make the key column of the count frame unique |
| Frames.Matching | kalendarz.py:144 | the right rows a left key matches all come from the right side and carry that key |
| Frames.MatchingComplete | kalendarz.py:144 | every right row carrying the key is among the matches |
| Frames.MatchingConcat | kalendarz.py:144 | matching keeps row order: the matches in `a + b` are those in `a` followed by those in `b` |
| Frames.Joined | kalendarz.py:144 | a left row yields one merged row per matching right row, or one padded row when nothing matches, and each keeps the left row's columns; `JoinedUnique` and `JoinedKeys` state the contents |
| Frames.JoinedUnique | kalendarz.py:144 | a left row whose key occurs once on the right yields exactly one merged row: itself plus that row's other cells |
| Frames.JoinedKeys | kalendarz.py:144 | every merged row of a left row has the left columns plus the right-hand extra columns |
| Frames.MergeRowsKeys | kalendarz.py:144 | left rows with one set of columns give merged rows with that set plus the extra columns |
| Frames.MergeRows | kalendarz.py:144 | a left merge never loses a left row; `MergeRowsLength` and `MergeRowsAt` state the rows under unique covering keys |
| Frames.MergeLeft | kalendarz.py:144 | a left merge gives a well-formed frame with the left columns followed by the right columns other than the key |
| Frames.FlattenSingletons | kalendarz.py:144 | groups of one output row each flatten to one row per left row, in order |
| Frames.MergeRowsLength | kalendarz.py:144 | against unique right keys that cover every left key, the merge keeps the number of rows |
| Frames.MergeRowsAt | kalendarz.py:144 | under the same conditions, merged row i is left row i extended by the cells of the right row carrying its key |
| Events.StatusLabel | kalendarz.py:81-90 | each of the five labels holds exactly when its condition holds: cancelled first, then red, tangerine, the held colours, otherwise unknown |
| Events.StartCell | kalendarz.py:77 | the start is `dateTime` when present, else `date`, else None |
| Events.ColorOf | kalendarz.py:78 | the colour id is the event's own when present, else "Brak" |
| Events.StatusOf | kalendarz.py:79 | the status is the event's own when present, else "confirmed" |
| Events.Record | kalendarz.py:92-98 | the record has exactly the five columns, with the defaults "Brak tytułu", "Brak" and "confirmed" for missing fields and the status label of the defaulted status and colour |
| Events.BuildRecords | kalendarz.py:76-98 | the loop yields one record per event, in event order, exactly when every event has a start; otherwise it stops at the first event without one |
| RepetitionCount.Keyed | kalendarz.py:137 | the helper key column holds each row's title text, and nothing else changes |
| RepetitionCount.KeyCounts | kalendarz.py:140-141 | the count table has the key and count columns |
| RepetitionCount.Merged | kalendarz.py:144 | the merge keeps the row count and appends the count column |
| RepetitionCount.CountRepetitions | kalendarz.py:131-149 | the result is well formed, keeps the row count and has the count column |
| RepetitionCount.TextMultiplicity | kalendarz.py:137 | wrapping titles in text cells keeps every multiplicity |
| RepetitionCount.KeyedCovered | kalendarz.py:137-140 | every row's key is listed in the count table |
| RepetitionCount.KeyCountsMatch | kalendarz.py:140-144 | the count table's keys are unique and cover every row's key, so the merge matches each row once |
| RepetitionCount.KeyTexts | kalendarz.py:137 | the key column holds the title texts |
| RepetitionCount.KeyCount | kalendarz.py:140-141 | the count table lists row i's key with the number of rows sharing its title |
| RepetitionCount.MergedCountRow | kalendarz.py:144 | merging with a count table adds just the count of the row's key |
| RepetitionCount.MergedRow | kalendarz.py:144 | after the merge, row i is the keyed row plus the number of rows sharing its title |
| RepetitionCount.CountRepetitionsRow | kalendarz.py:131-149 | row i of the result is input row i without the helper key, plus the number of rows with its title |
| RepetitionCount.CountRepetitionsColumns | kalendarz.py:137-147 | the result's columns are the input's without the helper key, followed by the count column |
| RepetitionCount.CountRepetitionsSpec | kalendarz.py:131-149 | whole effect: same rows in the same order, helper key gone, one last column holding each row's number of same-title rows |
| RepetitionCount.RepetitionsBounded | kalendarz.py:131-149 | each count is an integer between 1 (the row itself) and the number of rows |
| RepetitionCount.EqualTitlesEqualCounts | kalendarz.py:131-149 | rows with the same title text get the same count |
| RepetitionCount.CountRepetitionsKeepsColumns | kalendarz.py:131-149 | on the script's frames every original column and cell survives, and exactly one column is appended |
| AttendanceSummary.AttendanceOf | kalendarz.py:161-171 | red gives "Odwołane wcześniej" and tangerine "Odwołane za późno"; the present colours including "Brak" give "Obecny"; anything else gives "Nieznany", each in both directions |
| AttendanceSummary.AttendanceCells | kalendarz.py:168-172 | `apply` labels each colour cell, in order |
| AttendanceSummary.MarkAttendance | kalendarz.py:168-172 | the frame stays well formed with the same rows and gains (or overwrites) the attendance column |
| AttendanceSummary.MarkAttendanceRow | kalendarz.py:168-172 | row i gains the label of its own colour id and nothing else changes |
| AttendanceSummary.SameColorSameAttendance | kalendarz.py:168-172 | equal colour ids give equal attendance labels, whatever the API status |
| AttendanceSummary.MarkAttendanceKeepsColumns | kalendarz.py:168-172 | every original column and cell survives, and the attendance column is appended |
| AttendanceSummary.Percentages | kalendarz.py:179-180 | one summary row per table entry, with its label, its count, and its share: the count over `total`, times 100 |
| AttendanceSummary.Summarize | kalendarz.py:175-180 | `value_counts` of the label column with shares added (`Summarizes`): one row per distinct label, every label listed, each count the label's multiplicity and positive, each share count over the number of labels times 100; `SummarizeTotals` and `SummarizeShares` add the sums and bounds |
| AttendanceSummary.ComputeAttendance | kalendarz.py:152-183 | the returned frame is well formed, keeps the row count and has the attendance column |
| AttendanceSummary.PercentagesTotals | kalendarz.py:179-180 | the counts of the summary add up to the table total, and the shares to that total over `total` times 100 |
| AttendanceSummary.PercentagesBounded | kalendarz.py:180 | every share lies in (0, 100] |
| AttendanceSummary.SummarizeTotals | kalendarz.py:179-180 | the counts add up to the number of rows, and the shares to exactly 100 when there is a row |
| AttendanceSummary.SummarizeShares | kalendarz.py:180 | every share lies in (0, 100] |
| AttendanceSummary.SummarySpec | kalendarz.py:152-183 | the summary summarises the attendance labels of the rows (`Summarizes`: one row per distinct label, each count its multiplicity and positive, each share count over rows times 100); its counts add up to the row count and its shares to 100 on a non-empty frame |
| AttendanceSummary.AttendanceVersusStatus | kalendarz.py:161-171 | for a non-cancelled event, red and tangerine give matching labels in both schemes; a held colour counts as present; an unknown status counts as present exactly when the event has no colour or has the colour id "Brak" |
| Export.RecordColumns | kalendarz.py:92-98 | the record columns are distinct, include the title and colour, and exclude the helper, count and attendance columns |
| Export.RecordFrame | kalendarz.py:101 | `pd.DataFrame(data)` is a well-formed table whose grouping keys are the event titles |
| Export.CountedColumns | kalendarz.py:104 | after counting, the table has the record columns plus the count, one row per event |
| Export.CountedRow | kalendarz.py:104 | after counting, row i is event i's record plus the number of events with its title |
| Export.CountedTable | kalendarz.py:101-104 | counting repetitions over the records gives that table in full |
| Export.EventLabels | kalendarz.py:168-172 | the attendance labels written to the counted table are those of the events' colours, in event order |
| Export.DetailsRow | kalendarz.py:107 | row i of the details sheet is event i's record, its repetition count, and the attendance of its colour |
| Export.ExportedSheets | kalendarz.py:101-107 | the details sheet has the record columns, the count and the attendance, one row per event as described; the summary summarises the events' attendance labels (distinct labels, each count the number of events with that label, each share that count over the events times 100), counts every event once and its shares add up to 100 |
| Export.ExportReport | kalendarz.py:70-107 | no events ends the run, an event without a start ends it at the first such event, and otherwise both sheets come out as `ExportedSheets` describes, including the full summary property over the events' attendance labels |

## Left out

- Authorization (kalendarz.py:15-28): OAuth, the token file and the browser flow are I/O.
- Fetching (kalendarz.py:35-66): the API calls, the paging loop and the colour-palette request are network I/O. The fetched events are the input of `Export.ExportReport`.
- The clock (kalendarz.py:43-44): the time window of the query depends only on the current time.
- Output (kalendarz.py:110-120): writing the two Excel sheets and printing the summary are I/O. `Export.ExportReport` returns the two sheets instead.
- Error handling (kalendarz.py:122-128): only the error the model can raise, a missing `start` object (a KeyError), is modelled. It becomes `Failed` with the index of the event. Other exceptions come from the API or from I/O.
- Event fields are strings or absent. A JSON value of another type in `summary`, `colorId` or `status` is not modelled, so `astype(str)` acts on titles as the identity.
- AttendanceSummary.Percentages: shares are exact rationals. The rounding to two decimals and the appended '%' sign (kalendarz.py:180-181) are floating-point formatting and are left out.
- Counting.ValueCounts: pandas sorts the table by descending count, and its order among equal counts is an implementation detail. The model lists values in order of first appearance. No property proved here depends on the order.
- RepetitionCount.CountRepetitions: requires that the frame has no "Liczba powtórzeń" column yet, because otherwise pandas would add suffixes to the merged columns. The script's frames never have one.
- Frames.MergeLeft: models the merge only for right-hand columns that the left frame lacks. Suffix handling is not modelled.
- In-place updates: `zlicz_wydarzenia` and `oblicz_frekwencje` assign columns on the caller's frame (kalendarz.py:137, 168). The model returns new frames instead. `main` rebinds `df` to each result at once, so nothing observes the difference.
- Frames.Joined: a left row without a match is padded with None. pandas pads with NaN and turns an integer column into floats. In the script every key has a match (`RepetitionCount.KeyCountsMatch`), so this case never arises.
