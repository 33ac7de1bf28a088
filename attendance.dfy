/**
 `oblicz_frekwencje` (kalendarz.py): give every row an attendance label
 derived from its colour id alone, then summarise the labels in a table of
 counts and percentages.
 */
module AttendanceSummary {
  import opened Counting
  import opened Frames
  import opened Events

  const PRESENT := "Obecny"

  /** `frekwencja_map`: the colours that name an attendance label directly. */
  const ATTENDANCE_MAP := map["11" := CANCELLED_EARLY, "6" := CANCELLED_LATE]

  /** `obecny_kolory`: lavender, sage, peacock, blueberry, basil, and the missing colour. */
  const PRESENT_COLORS := ["1", "2", "7", "9", "10", DEFAULT_COLOR]

  /**
   The lambda applied to each `Color ID` cell: a mapped colour gives its
   label, a present colour gives "Obecny", and anything else, including a
   cell that is not a string, gives "Nieznany".
   */
  function AttendanceOf(color: Cell): (a: string)
    ensures a == CANCELLED_EARLY <==> color == Text("11")
    ensures a == CANCELLED_LATE <==> color == Text("6")
    ensures a == PRESENT <==> color.Text? && color.text in PRESENT_COLORS
    ensures a == UNKNOWN <==>
              !(color.Text? && (color.text == "11" || color.text == "6" || color.text in PRESENT_COLORS))
  {
    if color.Text? && color.text in ATTENDANCE_MAP then ATTENDANCE_MAP[color.text]
    else if color.Text? && color.text in PRESENT_COLORS then PRESENT
    else UNKNOWN
  }

  /** `df['Color ID'].apply(...)`. */
  function AttendanceCells(colors: seq<Cell>): (r: seq<Cell>)
    ensures |r| == |colors| && forall i :: 0 <= i < |colors| ==> r[i] == Text(AttendanceOf(colors[i]))
  {
    seq(|colors|, i requires 0 <= i < |colors| => Text(AttendanceOf(colors[i])))
  }

  /** `df['Frekwencja'] = df['Color ID'].apply(...)`. */
  function MarkAttendance(df: Frame): (r: Frame)
    requires WellFormed(df) && ColorId in df.columns
    ensures WellFormed(r) && Attendance in r.columns && |r.rows| == |df.rows|
    ensures r.columns == if Attendance in df.columns then df.columns else df.columns + [Attendance]
  {
    Assign(df, Attendance, AttendanceCells(Series(df, ColorId)))
  }

  /**
   One row of the summary sheet: the label ("Status frekwencji"), how many
   rows carry it ("Liczba"), and their share of all rows in percent ("Procent").
   */
  datatype SummaryRow = SummaryRow(status: Cell, count: nat, percent: real)

  /**
   The summary rows of a value-count table whose counts sum to `total`:
   `podsumowanie['Liczba'] / total * 100`, kept exact (the script then
   rounds to two places and appends '%').
   */
  function Percentages(t: seq<(Cell, nat)>, total: nat): (rows: seq<SummaryRow>)
    requires t != [] ==> total > 0
    ensures |rows| == |t|
    ensures forall i :: 0 <= i < |t| ==> rows[i].status == t[i].0 && rows[i].count == t[i].1
    ensures forall i :: 0 <= i < |t| ==> rows[i].percent == t[i].1 as real / total as real * 100.0
  {
    if t == [] then []
    else
      var last := t[|t| - 1];
      Percentages(t[..|t| - 1], total) + [SummaryRow(last.0, last.1, last.1 as real / total as real * 100.0)]
  }

  /**
   `rows` summarises the label column `labels`: one row per distinct label,
   every label listed, each row holding a label of the column, the number of
   times it occurs (never zero) and that number's share of all labels in
   percent.
   */
  predicate Summarizes(labels: seq<Cell>, rows: seq<SummaryRow>) {
    && Distinct(Statuses(rows))
    && (forall i :: 0 <= i < |labels| ==> labels[i] in Statuses(rows))
    && forall k :: 0 <= k < |rows| ==>
         && rows[k].status in labels
         && rows[k].count == multiset(labels)[rows[k].status]
         && 0 < rows[k].count
         && rows[k].percent == rows[k].count as real / |labels| as real * 100.0
  }

  /** `df['Frekwencja'].value_counts()` with the percentages added. */
  function Summarize(labels: seq<Cell>): (rows: seq<SummaryRow>)
    ensures Summarizes(labels, rows)
  {
    var t := ValueCounts(labels);
    ValueCountsTotal(labels);
    CountsSummarize(labels, t, Total(t));
    Percentages(t, Total(t))
  }

  /** A value-count table of `labels` with the shares of `|labels|` added summarises `labels`. */
  lemma CountsSummarize(labels: seq<Cell>, t: seq<(Cell, nat)>, total: nat)
    requires total == |labels|
    requires Distinct(Firsts(t))
    requires forall i :: 0 <= i < |labels| ==> labels[i] in Firsts(t)
    requires forall i :: 0 <= i < |t| ==> t[i].0 in labels && t[i].1 == multiset(labels)[t[i].0] && t[i].1 > 0
    ensures t != [] ==> total > 0
    ensures Summarizes(labels, Percentages(t, total))
  {
    assert t != [] ==> t[0].0 in labels;
    var rows := Percentages(t, total);
    assert Statuses(rows) == Firsts(t);
  }

  /** `oblicz_frekwencje(df)`: the frame with its attendance column, and the summary. */
  function ComputeAttendance(df: Frame): (r: (Frame, seq<SummaryRow>))
    requires WellFormed(df) && ColorId in df.columns
    ensures WellFormed(r.0) && Attendance in r.0.columns && |r.0.rows| == |df.rows|
  {
    var marked := MarkAttendance(df);
    (marked, Summarize(Series(marked, Attendance)))
  }

  /** The labels the attendance step writes, one per row. */
  function LabelsOf(df: Frame): (labels: seq<Cell>)
    requires WellFormed(df) && ColorId in df.columns
    ensures |labels| == |df.rows|
  {
    Series(MarkAttendance(df), Attendance)
  }

  /**
   Row `i` gets the label of its own colour id and nothing else changes: the
   label depends on the `Color ID` cell only, never on the API status.
   */
  lemma MarkAttendanceRow(df: Frame, i: nat)
    requires WellFormed(df) && ColorId in df.columns && i < |df.rows|
    ensures MarkAttendance(df).rows[i] == df.rows[i][Attendance := Text(AttendanceOf(df.rows[i][ColorId]))]
    ensures LabelsOf(df)[i] == Text(AttendanceOf(df.rows[i][ColorId]))
  {
  }

  /** Rows with equal colour ids get equal attendance labels, whatever else they hold. */
  lemma SameColorSameAttendance(df: Frame, i: nat, j: nat)
    requires WellFormed(df) && ColorId in df.columns && i < |df.rows| && j < |df.rows|
    requires df.rows[i][ColorId] == df.rows[j][ColorId]
    ensures LabelsOf(df)[i] == LabelsOf(df)[j]
  {
    MarkAttendanceRow(df, i);
    MarkAttendanceRow(df, j);
  }

  /** On a frame without an attendance column every original column survives, and one is added at the end. */
  lemma MarkAttendanceKeepsColumns(df: Frame)
    requires WellFormed(df) && ColorId in df.columns && Attendance !in df.columns
    ensures MarkAttendance(df).columns == df.columns + [Attendance]
    ensures forall i, c :: 0 <= i < |df.rows| && c in df.columns ==> MarkAttendance(df).rows[i][c] == df.rows[i][c]
  {
    forall i, c | 0 <= i < |df.rows| && c in df.columns
      ensures MarkAttendance(df).rows[i][c] == df.rows[i][c]
    {
      MarkAttendanceRow(df, i);
    }
  }

  /** The statuses of a summary, top to bottom. */
  function Statuses(rows: seq<SummaryRow>): (s: seq<Cell>)
    ensures |s| == |rows| && forall i :: 0 <= i < |rows| ==> s[i] == rows[i].status
  {
    seq(|rows|, i requires 0 <= i < |rows| => rows[i].status)
  }

  /** The sum of the count column of a summary. */
  function CountTotal(rows: seq<SummaryRow>): nat {
    if rows == [] then 0 else CountTotal(rows[..|rows| - 1]) + rows[|rows| - 1].count
  }

  /** The sum of the percentage column of a summary. */
  function PercentTotal(rows: seq<SummaryRow>): real {
    if rows == [] then 0.0 else PercentTotal(rows[..|rows| - 1]) + rows[|rows| - 1].percent
  }

  lemma SumOfShares(a: real, b: real, d: real)
    requires d > 0.0
    ensures a / d * 100.0 + b / d * 100.0 == (a + b) / d * 100.0
  {
  }

  lemma WholeShare(d: real)
    requires d > 0.0
    ensures d / d * 100.0 == 100.0
  {
  }

  lemma ShareBounds(count: nat, total: nat)
    requires 0 < count <= total
    ensures 0.0 < count as real / total as real * 100.0 <= 100.0
  {
    assert count as real / total as real <= 1.0;
  }

  lemma {:induction false} PercentagesTotals(t: seq<(Cell, nat)>, total: nat)
    requires total > 0
    ensures CountTotal(Percentages(t, total)) == Total(t)
    ensures PercentTotal(Percentages(t, total)) == Total(t) as real / total as real * 100.0
  {
    if t != [] {
      var init, last := t[..|t| - 1], t[|t| - 1];
      PercentagesTotals(init, total);
      var rows := Percentages(t, total);
      assert rows[..|rows| - 1] == Percentages(init, total);
      SumOfShares(Total(init) as real, last.1 as real, total as real);
    }
  }

  lemma {:induction false} PercentagesBounded(t: seq<(Cell, nat)>, total: nat)
    requires total > 0
    requires forall i :: 0 <= i < |t| ==> 0 < t[i].1 <= total
    ensures forall i :: 0 <= i < |t| ==> 0.0 < Percentages(t, total)[i].percent <= 100.0
  {
    if t != [] {
      var init, last := t[..|t| - 1], t[|t| - 1];
      PercentagesBounded(init, total);
      var rows := Percentages(t, total);
      assert rows == Percentages(init, total) + [SummaryRow(last.0, last.1, last.1 as real / total as real * 100.0)];
      ShareBounds(last.1, total);
      forall i | 0 <= i < |t|
        ensures 0.0 < rows[i].percent <= 100.0
      {
        if i < |init| {
          assert rows[i] == Percentages(init, total)[i];
        }
      }
    }
  }

  /** The counts of a summary add up to the number of labels, and its shares to 100 when there is a label. */
  lemma SummarizeTotals(labels: seq<Cell>)
    ensures CountTotal(Summarize(labels)) == |labels|
    ensures |labels| > 0 ==> PercentTotal(Summarize(labels)) == 100.0
  {
    var t := ValueCounts(labels);
    ValueCountsTotal(labels);
    assert Summarize(labels) == Percentages(t, Total(t));
    if |labels| > 0 {
      PercentagesTotals(t, Total(t));
      WholeShare(Total(t) as real);
    }
  }

  /** Every share of a summary lies in (0, 100]. */
  lemma SummarizeShares(labels: seq<Cell>)
    ensures forall k :: 0 <= k < |Summarize(labels)| ==> 0.0 < Summarize(labels)[k].percent <= 100.0
  {
    var t := ValueCounts(labels);
    ValueCountsTotal(labels);
    assert Summarize(labels) == Percentages(t, Total(t));
    if |labels| > 0 {
      forall i | 0 <= i < |t|
        ensures 0 < t[i].1 <= Total(t)
      {
        MultiplicityBound(labels, t[i].0);
      }
      PercentagesBounded(t, Total(t));
    }
  }

  /**
   `oblicz_frekwencje` as a whole: the summary is that of the attendance
   labels, one per row, so its counts add up to the number of rows and its
   shares to 100 when there is a row.
   */
  lemma SummarySpec(df: Frame)
    requires WellFormed(df) && ColorId in df.columns
    ensures Summarizes(LabelsOf(df), ComputeAttendance(df).1)
    ensures CountTotal(ComputeAttendance(df).1) == |df.rows|
    ensures |df.rows| > 0 ==> PercentTotal(ComputeAttendance(df).1) == 100.0
  {
    SummarizeTotals(LabelsOf(df));
  }

  /**
   How the two labellings relate for one event. For an event that is not
   cancelled, red and tangerine give the same label in both, a held colour
   counts as present, and an unknown status counts as present exactly when
   the event has no colour or has the colour id "Brak". A cancelled event's attendance follows its
   colour as for any other event.
   */
  lemma AttendanceVersusStatus(e: Event)
    requires e.start.Some?
    ensures AttendanceOf(Record(e)[ColorId]) == AttendanceOf(Text(ColorOf(e)))
    ensures StatusOf(e) != CANCELLED_STATUS ==>
              var marked, present := Record(e)[MarkedStatus].text, AttendanceOf(Record(e)[ColorId]);
              && (marked == CANCELLED_EARLY <==> present == CANCELLED_EARLY)
              && (marked == CANCELLED_LATE <==> present == CANCELLED_LATE)
              && (marked == HELD ==> present == PRESENT)
              && (marked == UNKNOWN ==> (present == PRESENT <==> e.colorId.None? || e.colorId == Some(DEFAULT_COLOR)))
  {
  }
}
