/**
 The processing part of `main` (kalendarz.py): the fetched events become
 records, the records a table, the table gains its repetition counts and
 its attendance labels, and an attendance summary is produced. Writing the
 two sheets and printing the summary are left to the caller.
 */
module Export {
  import opened Counting
  import opened Frames
  import opened Events
  import opened RepetitionCount
  import opened AttendanceSummary

  /** What a run produces: nothing to do, the failing event, or the two sheets. */
  datatype Report = NoEvents | Failed(index: nat) | Exported(details: Frame, summary: seq<SummaryRow>)

  /** The title an event is listed under. */
  function EventTitle(e: Event): string {
    e.summary.GetOr(DEFAULT_TITLE)
  }

  /** The titles of all events, in event order. */
  function EventTitles(events: seq<Event>): (ts: seq<string>)
    ensures |ts| == |events| && forall i :: 0 <= i < |events| ==> ts[i] == EventTitle(events[i])
  {
    seq(|events|, i requires 0 <= i < |events| => EventTitle(events[i]))
  }

  /** The number of events listed under the same title as event `i`. */
  function SameTitleCount(events: seq<Event>, i: nat): nat
    requires i < |events|
  {
    multiset(EventTitles(events))[EventTitle(events[i])]
  }

  /** The row of the details sheet for event `i`: its record, its repetition count and its attendance. */
  function DetailRow(events: seq<Event>, i: nat): Row
    requires i < |events| && events[i].start.Some?
  {
    Record(events[i])[Repetitions := Int(SameTitleCount(events, i))][Attendance := Text(AttendanceOf(Text(ColorOf(events[i]))))]
  }

  /** The attendance label of each event's colour, in event order. */
  function AttendanceLabels(events: seq<Event>): (ls: seq<Cell>)
    ensures |ls| == |events| && forall i :: 0 <= i < |events| ==> ls[i] == Text(AttendanceOf(Text(ColorOf(events[i]))))
  {
    seq(|events|, i requires 0 <= i < |events| => Text(AttendanceOf(Text(ColorOf(events[i])))))
  }

  /** `rows` are the records of `events`, one per event in event order. */
  predicate Recorded(events: seq<Event>, rows: seq<Row>) {
    && |rows| == |events|
    && forall i :: 0 <= i < |events| ==> events[i].start.Some? && rows[i] == Record(events[i])
  }

  lemma RecordColumns()
    ensures Distinct(RECORD_COLUMNS)
    ensures Title in RECORD_COLUMNS && ColorId in RECORD_COLUMNS
    ensures Key !in RECORD_COLUMNS && Repetitions !in RECORD_COLUMNS && Attendance !in RECORD_COLUMNS
    ensures Names(RECORD_COLUMNS) == {Title, Start, ColorId, ApiStatus, MarkedStatus}
  {
  }

  /** `pd.DataFrame(data)`: a well-formed table whose grouping keys are the event titles. */
  lemma RecordFrame(events: seq<Event>, rows: seq<Row>)
    requires Recorded(events, rows)
    ensures WellFormed(Frame(RECORD_COLUMNS, rows))
    ensures TitleTexts(Frame(RECORD_COLUMNS, rows)) == EventTitles(events)
  {
    RecordColumns();
    forall i | 0 <= i < |rows|
      ensures rows[i].Keys == Names(RECORD_COLUMNS) && TitleText(rows[i]) == EventTitle(events[i])
    {
    }
  }

  /** After counting, the table has the record columns plus the count. */
  lemma CountedColumns(events: seq<Event>, rows: seq<Row>)
    requires Recorded(events, rows)
    ensures WellFormed(Frame(RECORD_COLUMNS, rows))
    ensures CountRepetitions(Frame(RECORD_COLUMNS, rows)).columns == RECORD_COLUMNS + [Repetitions]
    ensures |CountRepetitions(Frame(RECORD_COLUMNS, rows)).rows| == |events|
  {
    RecordFrame(events, rows);
    RecordColumns();
    CountRepetitionsKeepsColumns(Frame(RECORD_COLUMNS, rows));
  }

  /** After counting, row `i` is the record of event `i` with the number of events sharing its title. */
  lemma CountedRow(events: seq<Event>, rows: seq<Row>, i: nat)
    requires Recorded(events, rows) && i < |events|
    ensures WellFormed(Frame(RECORD_COLUMNS, rows))
    ensures |CountRepetitions(Frame(RECORD_COLUMNS, rows)).rows| == |events|
    ensures CountRepetitions(Frame(RECORD_COLUMNS, rows)).rows[i] == CountedRecord(events, i)
  {
    var df := Frame(RECORD_COLUMNS, rows);
    RecordFrame(events, rows);
    RecordColumns();
    CountRepetitionsRow(df, i);
    assert Key !in rows[i];
    DropAbsent(rows[i], Key);
    assert TitleText(rows[i]) == EventTitle(events[i]);
  }

  lemma AppendTwo(s: seq<Label>, a: Label, b: Label)
    ensures s + [a] + [b] == s + [a, b]
  {
  }

  lemma DropAbsent(row: Row, name: Label)
    requires name !in row
    ensures row - {name} == row
  {
  }

  /** The record of event `i` with the number of events sharing its title. */
  function CountedRecord(events: seq<Event>, i: nat): Row
    requires i < |events| && events[i].start.Some?
  {
    Record(events[i])[Repetitions := Int(SameTitleCount(events, i))]
  }

  /** `counted` is the table of `events` after `zlicz_wydarzenia`. */
  predicate Counted(events: seq<Event>, counted: Frame) {
    && WellFormed(counted)
    && counted.columns == RECORD_COLUMNS + [Repetitions]
    && |counted.rows| == |events|
    && forall i :: 0 <= i < |events| ==> events[i].start.Some? && counted.rows[i] == CountedRecord(events, i)
  }

  /** Counting repetitions over the records gives the counted table. */
  lemma CountedTable(events: seq<Event>, rows: seq<Row>)
    requires Recorded(events, rows)
    ensures WellFormed(Frame(RECORD_COLUMNS, rows))
    ensures Counted(events, CountRepetitions(Frame(RECORD_COLUMNS, rows)))
  {
    RecordColumns();
    CountedColumns(events, rows);
    forall i | 0 <= i < |events|
      ensures CountRepetitions(Frame(RECORD_COLUMNS, rows)).rows[i] == CountedRecord(events, i)
    {
      CountedRow(events, rows, i);
    }
  }

  /** Row `i` of the details sheet. */
  lemma DetailsRow(events: seq<Event>, counted: Frame, i: nat)
    requires Counted(events, counted) && i < |events|
    ensures ColorId in counted.columns
    ensures ComputeAttendance(counted).0.rows[i] == DetailRow(events, i)
  {
    RecordColumns();
    assert ColorId in counted.columns;
    MarkAttendanceRow(counted, i);
    assert counted.rows[i][ColorId] == Record(events[i])[ColorId];
  }

  /** The attendance labels of the counted table are those of the events' colours. */
  lemma EventLabels(events: seq<Event>, counted: Frame)
    requires Counted(events, counted)
    ensures ColorId in counted.columns
    ensures LabelsOf(counted) == AttendanceLabels(events)
  {
    RecordColumns();
    assert ColorId in counted.columns;
    forall i | 0 <= i < |events|
      ensures LabelsOf(counted)[i] == AttendanceLabels(events)[i]
    {
      MarkAttendanceRow(counted, i);
      assert counted.rows[i][ColorId] == Record(events[i])[ColorId];
    }
  }

  /**
   The sheets of a run over events that all have a start: the details sheet
   has the record columns, the count and the attendance, and row `i` is the
   record of event `i` with the number of events sharing its title and the
   attendance of its colour; the summary summarises the attendance labels
   of the events, so it counts every event once and its shares add up to 100.
   */
  lemma ExportedSheets(events: seq<Event>, counted: Frame)
    requires |events| > 0 && Counted(events, counted)
    ensures ColorId in counted.columns
    ensures ComputeAttendance(counted).0.columns == RECORD_COLUMNS + [Repetitions, Attendance]
    ensures |ComputeAttendance(counted).0.rows| == |events|
    ensures forall i :: 0 <= i < |events| ==> ComputeAttendance(counted).0.rows[i] == DetailRow(events, i)
    ensures Summarizes(AttendanceLabels(events), ComputeAttendance(counted).1)
    ensures CountTotal(ComputeAttendance(counted).1) == |events|
    ensures PercentTotal(ComputeAttendance(counted).1) == 100.0
  {
    RecordColumns();
    assert ColorId in counted.columns && Attendance !in counted.columns;
    MarkAttendanceKeepsColumns(counted);
    SummarySpec(counted);
    EventLabels(events, counted);
    assert ComputeAttendance(counted).0 == MarkAttendance(counted);
    AppendTwo(RECORD_COLUMNS, Repetitions, Attendance);
    forall i | 0 <= i < |events|
      ensures ComputeAttendance(counted).0.rows[i] == DetailRow(events, i)
    {
      DetailsRow(events, counted, i);
    }
  }

  /**
   The processing part of `main`. No events ends the run early; an event
   without a start object ends it with the KeyError that `main` reports;
   otherwise the records are counted and labelled and both sheets result.
   */
  method ExportReport(events: seq<Event>) returns (report: Report)
    ensures report.NoEvents? <==> events == []
    ensures report.Failed? <==> events != [] && exists i :: 0 <= i < |events| && events[i].start.None?
    ensures report.Failed? ==>
              && report.index < |events| && events[report.index].start.None?
              && forall i :: 0 <= i < report.index ==> events[i].start.Some?
    ensures report.Exported? ==>
              && report.details.columns == RECORD_COLUMNS + [Repetitions, Attendance]
              && |report.details.rows| == |events|
              && (forall i :: 0 <= i < |events| ==> events[i].start.Some? && report.details.rows[i] == DetailRow(events, i))
              && Summarizes(AttendanceLabels(events), report.summary)
              && CountTotal(report.summary) == |events|
              && PercentTotal(report.summary) == 100.0
  {
    if events == [] {
      return NoEvents;
    }
    var built := BuildRecords(events);
    if built.MissingStart? {
      return Failed(built.index);
    }
    assert Recorded(events, built.rows);
    RecordColumns();
    CountedTable(events, built.rows);
    var df := Frame(RECORD_COLUMNS, built.rows);
    df := CountRepetitions(df);
    ExportedSheets(events, df);
    var (details, summary) := ComputeAttendance(df);
    return Exported(details, summary);
  }
}
