/**
 `zlicz_wydarzenia` (kalendarz.py): annotate every row with the number of
 rows that share its title. The script builds a helper key column from the
 title as text, counts the keys with `value_counts`, left-merges the counts
 back on the key and drops the helper column again.
 */
module RepetitionCount {
  import opened Counting
  import opened Frames

  /** The title of a row as `astype(str)` renders it: the key the rows are grouped by. */
  function TitleText(row: Row): string
    requires Title in row
  {
    CellText(row[Title])
  }

  /** The grouping key of every row, top to bottom. */
  function TitleTexts(df: Frame): (ts: seq<string>)
    requires WellFormed(df) && Title in df.columns
    ensures |ts| == |df.rows| && forall i :: 0 <= i < |df.rows| ==> ts[i] == TitleText(df.rows[i])
  {
    seq(|df.rows|, i requires 0 <= i < |df.rows| => TitleText(df.rows[i]))
  }

  /** The number of rows whose title text equals that of row `i`. */
  function SameTitle(df: Frame, i: nat): nat
    requires WellFormed(df) && Title in df.columns && i < |df.rows|
  {
    multiset(TitleTexts(df))[TitleText(df.rows[i])]
  }

  /** `df['Klucz'] = df['Tytuł'].astype(str)`. */
  function Keyed(df: Frame): (r: Frame)
    requires WellFormed(df) && Title in df.columns
    ensures WellFormed(r) && Key in r.columns && |r.rows| == |df.rows|
    ensures r.columns == if Key in df.columns then df.columns else df.columns + [Key]
    ensures forall i :: 0 <= i < |df.rows| ==> r.rows[i] == df.rows[i][Key := Text(TitleText(df.rows[i]))]
  {
    Assign(df, Key, AsText(Series(df, Title)))
  }

  /** `df['Klucz'].value_counts().reset_index()`, columns renamed to the key and the count. */
  function KeyCounts(df: Frame): (r: Frame)
    requires WellFormed(df) && Title in df.columns
    ensures WellFormed(r) && r.columns == [Key, Repetitions]
  {
    CountsFrame(ValueCounts(Series(Keyed(df), Key)), Key, Repetitions)
  }

  /** `df.merge(powtorzenia, on='Klucz', how='left')`. */
  function Merged(df: Frame): (r: Frame)
    requires WellFormed(df) && Title in df.columns && Repetitions !in df.columns
    ensures WellFormed(r) && r.columns == Keyed(df).columns + [Repetitions]
    ensures |r.rows| == |df.rows|
  {
    var keyed := Keyed(df);
    assert forall c :: c in [Key, Repetitions] && c != Key ==> c !in keyed.columns;
    WithoutPair();
    KeyCountsMatch(df);
    MergeRowsLength(keyed.rows, KeyCounts(df).rows, Key, [Repetitions]);
    MergeLeft(keyed, KeyCounts(df), Key)
  }

  /**
   `zlicz_wydarzenia(df)`. A column named like the count column would make
   the merge add suffixes; the script's frames never have one.
   */
  function CountRepetitions(df: Frame): (r: Frame)
    requires WellFormed(df) && Title in df.columns && Repetitions !in df.columns
    ensures WellFormed(r) && Repetitions in r.columns && |r.rows| == |df.rows|
  {
    var merged := Merged(df);
    assert Key in merged.columns && Repetitions in merged.columns;
    WithoutKeeps(merged.columns, Key, Repetitions);
    Drop(merged, Key)
  }

  /** Wrapping strings as text cells keeps every multiplicity. */
  lemma {:induction false} TextMultiplicity(ts: seq<string>, cells: seq<Cell>, t: string)
    requires |cells| == |ts| && forall i :: 0 <= i < |ts| ==> cells[i] == Text(ts[i])
    ensures multiset(cells)[Text(t)] == multiset(ts)[t]
  {
    if ts != [] {
      var n := |ts| - 1;
      assert ts == ts[..n] + [ts[n]];
      assert cells == cells[..n] + [cells[n]];
      TextMultiplicity(ts[..n], cells[..n], t);
    }
  }

  lemma WithoutSnoc(columns: seq<Label>, x: Label, name: Label)
    ensures Without(columns + [x], name) == Without(columns, name) + (if x == name then [] else [x])
  {
    assert (columns + [x])[..|columns|] == columns;
  }

  lemma WithoutPair()
    ensures Without([Key, Repetitions], Key) == [Repetitions]
  {
    WithoutSnoc([Key], Repetitions, Key);
    WithoutSnoc([], Key, Key);
    assert [Key] == [] + [Key];
    assert [Key, Repetitions] == [Key] + [Repetitions];
  }

  /** The columns of the result: the helper key column is appended (or reused), and dropped again. */
  lemma CountRepetitionsColumns(df: Frame)
    requires WellFormed(df) && Title in df.columns && Repetitions !in df.columns
    ensures CountRepetitions(df).columns == Without(df.columns, Key) + [Repetitions]
  {
    WithoutSnoc(Keyed(df).columns, Repetitions, Key);
    if Key !in df.columns {
      WithoutSnoc(df.columns, Key, Key);
    }
  }

  /** Every row of the keyed frame has a key, and the count table lists it. */
  lemma KeyedCovered(df: Frame)
    requires WellFormed(df) && Title in df.columns
    ensures forall i :: 0 <= i < |df.rows| ==>
              Key in Keyed(df).rows[i] && Keyed(df).rows[i][Key] in Firsts(ValueCounts(Series(Keyed(df), Key)))
  {
    var keyed := Keyed(df);
    var cells := Series(keyed, Key);
    forall i | 0 <= i < |df.rows|
      ensures Key in keyed.rows[i] && keyed.rows[i][Key] in Firsts(ValueCounts(cells))
    {
      assert keyed.rows[i][Key] == cells[i];
    }
  }

  /** Every key occurs exactly once in the count table, and every row's key occurs there. */
  lemma KeyCountsMatch(df: Frame)
    requires WellFormed(df) && Title in df.columns
    ensures Joinable(Keyed(df).rows, KeyCounts(df).rows, Key)
  {
    var vc := ValueCounts(Series(Keyed(df), Key));
    assert KeyCounts(df) == CountsFrame(vc, Key, Repetitions);
    CountsFrameKeys(vc, Key, Repetitions);
    CountsFrameUnique(vc, Key, Repetitions);
    KeyedCovered(df);
  }

  /** The helper key column holds each row's title text. */
  lemma KeyTexts(df: Frame)
    requires WellFormed(df) && Title in df.columns
    ensures forall k :: 0 <= k < |df.rows| ==> Series(Keyed(df), Key)[k] == Text(TitleTexts(df)[k])
  {
    var keyed := Keyed(df);
    forall k | 0 <= k < |df.rows|
      ensures Series(keyed, Key)[k] == Text(TitleTexts(df)[k])
    {
      var row := df.rows[k];
      calc {
        Series(keyed, Key)[k];
        keyed.rows[k][Key];
        row[Key := Text(TitleText(row))][Key];
        Text(TitleText(row));
      }
    }
  }

  /** A merged row against a count table: the left row plus the count of its key. */
  lemma MergedCountRow(left: seq<Row>, vc: seq<(Cell, nat)>, counts: Frame, i: nat, j: nat)
    requires counts == CountsFrame(vc, Key, Repetitions)
    requires Joinable(left, counts.rows, Key)
    requires i < |left| && j < |vc| && vc[j].0 == left[i][Key]
    ensures |MergeRows(left, counts.rows, Key, [Repetitions])| == |left|
    ensures MergeRows(left, counts.rows, Key, [Repetitions])[i] == left[i][Repetitions := Int(vc[j].1)]
  {
    assert counts.rows[j] == CountRow(vc[j], Key, Repetitions);
    MergeRowsAt(left, counts.rows, Key, [Repetitions], i, j);
    ExtendCountRow(left[i], vc[j], Key, Repetitions);
  }

  /** The count table lists the key of row `i` with the number of rows sharing its title. */
  lemma KeyCount(df: Frame, i: nat) returns (j: nat)
    requires WellFormed(df) && Title in df.columns && i < |df.rows|
    ensures j < |ValueCounts(Series(Keyed(df), Key))|
    ensures ValueCounts(Series(Keyed(df), Key))[j].0 == Keyed(df).rows[i][Key]
    ensures ValueCounts(Series(Keyed(df), Key))[j].1 == SameTitle(df, i)
  {
    var ts := TitleTexts(df);
    var cells := Series(Keyed(df), Key);
    var vc := ValueCounts(cells);
    KeyTexts(df);
    assert cells[i] in Firsts(vc);
    j :| 0 <= j < |vc| && Firsts(vc)[j] == cells[i];
    TextMultiplicity(ts, cells, ts[i]);
  }

  /** Row `i` after the merge: the keyed row `i`, plus the number of rows sharing its key. */
  lemma MergedRow(df: Frame, i: nat)
    requires WellFormed(df) && Title in df.columns && Repetitions !in df.columns && i < |df.rows|
    ensures |Merged(df).rows| == |df.rows|
    ensures Merged(df).rows[i] == Keyed(df).rows[i][Repetitions := Int(SameTitle(df, i))]
  {
    var keyed, counts := Keyed(df), KeyCounts(df);
    var vc := ValueCounts(Series(keyed, Key));
    var j := KeyCount(df, i);
    KeyCountsMatch(df);
    MergedCountRow(keyed.rows, vc, counts, i, j);
    WithoutPair();
    assert Merged(df).rows == MergeRows(keyed.rows, counts.rows, Key, [Repetitions]);
  }

  lemma DropAfterAssign(row: Row, key: Label, k: Cell, count: Label, n: Cell)
    requires key != count
    ensures row[key := k][count := n] - {key} == (row - {key})[count := n]
  {
  }

  /** Row `i` of the result: row `i` of the input without the key, plus its count. */
  lemma CountRepetitionsRow(df: Frame, i: nat)
    requires WellFormed(df) && Title in df.columns && Repetitions !in df.columns && i < |df.rows|
    ensures CountRepetitions(df).rows[i] == (df.rows[i] - {Key})[Repetitions := Int(SameTitle(df, i))]
  {
    MergedRow(df, i);
    var n := Int(SameTitle(df, i));
    var row := df.rows[i];
    assert CountRepetitions(df).rows[i] == row[Key := Text(TitleText(row))][Repetitions := n] - {Key};
    DropAfterAssign(row, Key, Text(TitleText(row)), Repetitions, n);
  }

  /**
   The whole effect of `zlicz_wydarzenia`: the same rows in the same order,
   the helper key column gone, and one new last column holding, for each
   row, the number of rows whose title text equals its own.
   */
  lemma CountRepetitionsSpec(df: Frame)
    requires WellFormed(df) && Title in df.columns && Repetitions !in df.columns
    ensures CountRepetitions(df).columns == Without(df.columns, Key) + [Repetitions]
    ensures |CountRepetitions(df).rows| == |df.rows|
    ensures forall i :: 0 <= i < |df.rows| ==>
              CountRepetitions(df).rows[i] == (df.rows[i] - {Key})[Repetitions := Int(SameTitle(df, i))]
  {
    CountRepetitionsColumns(df);
    forall i | 0 <= i < |df.rows|
      ensures CountRepetitions(df).rows[i] == (df.rows[i] - {Key})[Repetitions := Int(SameTitle(df, i))]
    {
      CountRepetitionsRow(df, i);
    }
  }

  /** Every row counts at least itself, and no row counts more rows than there are. */
  lemma RepetitionsBounded(df: Frame, i: nat)
    requires WellFormed(df) && Title in df.columns && Repetitions !in df.columns && i < |df.rows|
    ensures CountRepetitions(df).rows[i][Repetitions].Int?
    ensures 1 <= CountRepetitions(df).rows[i][Repetitions].value <= |df.rows|
  {
    CountRepetitionsSpec(df);
    var ts := TitleTexts(df);
    assert ts[i] in multiset(ts);
  }

  /** Rows with equal title texts get equal counts. */
  lemma EqualTitlesEqualCounts(df: Frame, i: nat, j: nat)
    requires WellFormed(df) && Title in df.columns && Repetitions !in df.columns
    requires i < |df.rows| && j < |df.rows| && TitleText(df.rows[i]) == TitleText(df.rows[j])
    ensures CountRepetitions(df).rows[i][Repetitions] == CountRepetitions(df).rows[j][Repetitions]
  {
    CountRepetitionsSpec(df);
  }

  /**
   On a frame without a column named like the helper key, as the script's
   frames are, every original column survives in its place with every cell
   unchanged, and exactly one column is added at the end.
   */
  lemma CountRepetitionsKeepsColumns(df: Frame)
    requires WellFormed(df) && Title in df.columns && Repetitions !in df.columns && Key !in df.columns
    ensures CountRepetitions(df).columns == df.columns + [Repetitions]
    ensures Key !in CountRepetitions(df).columns
    ensures |CountRepetitions(df).rows| == |df.rows|
    ensures forall i, c :: 0 <= i < |df.rows| && c in df.columns ==> CountRepetitions(df).rows[i][c] == df.rows[i][c]
  {
    CountRepetitionsSpec(df);
  }
}
