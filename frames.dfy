/**
 A pandas DataFrame as kalendarz.py uses it: named columns, and rows that map
 every column name to a cell. Only the operations the script performs are
 modelled: building a frame from a list of dicts, reading a column, assigning
 a column, converting a column with `astype(str)`, a left merge on one key
 column, and dropping a column.
 */
module Frames {
  import opened Counting

  /** A cell value: a string, an integer, or Python's None. */
  datatype Cell = Text(text: string) | Int(value: int) | Null

  /** The columns that the script's frames ever hold. */
  datatype Label =
    | Title | Start | ColorId | ApiStatus | MarkedStatus  // the record built per event
    | Key | Repetitions                                   // added by the repetition count
    | Attendance                                          // added by the attendance step
  {
    /** The column header as the script spells it. */
    function Header(): string {
      match this
      case Title => "Tytuł"
      case Start => "Data startu"
      case ColorId => "Color ID"
      case ApiStatus => "Status API"
      case MarkedStatus => "Oznaczony status"
      case Key => "Klucz"
      case Repetitions => "Liczba powtórzeń"
      case Attendance => "Frekwencja"
    }
  }

  type Row = map<Label, Cell>

  datatype Frame = Frame(columns: seq<Label>, rows: seq<Row>)

  function Names(columns: seq<Label>): set<Label> {
    set c | c in columns
  }

  /** Column names are unique and every row has exactly the frame's columns. */
  predicate WellFormed(f: Frame) {
    && Distinct(f.columns)
    && forall i :: 0 <= i < |f.rows| ==> f.rows[i].Keys == Names(f.columns)
  }

  /** `df[name]`: the cells of one column, top to bottom. */
  function Series(f: Frame, name: Label): (cells: seq<Cell>)
    requires WellFormed(f) && name in f.columns
    ensures |cells| == |f.rows|
    ensures forall i :: 0 <= i < |f.rows| ==> cells[i] == f.rows[i][name]
  {
    seq(|f.rows|, i requires 0 <= i < |f.rows| => f.rows[i][name])
  }

  /**
   `df[name] = values`: an existing column is overwritten in place, a new one
   is appended after the others.
   */
  function Assign(f: Frame, name: Label, values: seq<Cell>): (r: Frame)
    requires WellFormed(f) && |values| == |f.rows|
    ensures WellFormed(r)
    ensures r.columns == if name in f.columns then f.columns else f.columns + [name]
    ensures |r.rows| == |f.rows|
    ensures forall i :: 0 <= i < |f.rows| ==> r.rows[i] == f.rows[i][name := values[i]]
  {
    var columns := if name in f.columns then f.columns else f.columns + [name];
    assert Names(columns) == Names(f.columns) + {name};
    Frame(columns, seq(|f.rows|, i requires 0 <= i < |f.rows| => f.rows[i][name := values[i]]))
  }

  /** The columns without `name`, in their order. */
  function Without(columns: seq<Label>, name: Label): (r: seq<Label>)
    ensures Names(r) == Names(columns) - {name}
    ensures Distinct(columns) ==> Distinct(r)
    ensures name !in columns ==> r == columns
  {
    if columns == [] then []
    else
      var init, last := columns[..|columns| - 1], columns[|columns| - 1];
      assert columns == init + [last];
      assert Names(columns) == Names(init) + {last};
      var rest := Without(init, name);
      assert Distinct(columns) ==> Distinct(init) && last !in Names(init);
      if last == name then rest
      else
        assert Names(rest + [last]) == Names(rest) + {last};
        rest + [last]
  }

  /** Removing a column that sits at position `k` keeps the others in their order. */
  lemma {:induction false} WithoutAt(columns: seq<Label>, name: Label, k: nat)
    requires Distinct(columns) && k < |columns| && columns[k] == name
    ensures Without(columns, name) == columns[..k] + columns[k + 1..]
  {
    var init, last := columns[..|columns| - 1], columns[|columns| - 1];
    assert columns == init + [last];
    assert Distinct(init);
    if k == |columns| - 1 {
      assert name !in init;
      assert columns[..k] + columns[k + 1..] == init;
    } else {
      assert init[k] == name;
      WithoutAt(init, name, k);
      assert last != name;
      assert columns[..k] == init[..k];
      assert columns[k + 1..] == init[k + 1..] + [last];
    }
  }

  /** A column other than `name` survives its removal. */
  lemma WithoutKeeps(columns: seq<Label>, name: Label, c: Label)
    requires c in columns && c != name
    ensures c in Without(columns, name)
  {
    assert c in Names(columns) - {name};
  }

  /** `df.drop(columns=[name])`; pandas raises KeyError for a missing column. */
  function Drop(f: Frame, name: Label): (r: Frame)
    requires WellFormed(f) && name in f.columns
    ensures WellFormed(r)
    ensures r.columns == Without(f.columns, name) && name !in r.columns
    ensures |r.rows| == |f.rows|
    ensures forall i :: 0 <= i < |f.rows| ==> r.rows[i] == f.rows[i] - {name}
  {
    Frame(Without(f.columns, name), seq(|f.rows|, i requires 0 <= i < |f.rows| => f.rows[i] - {name}))
  }

  /**
   Python's `str()` of a cell, which `astype(str)` applies to every cell: a
   string is left as it is, an integer is written in decimal (and reads back
   as the same integer), and None becomes "None".
   */
  function CellText(c: Cell): (s: string)
    ensures c.Text? ==> s == c.text
    ensures c.Int? && c.value >= 0 ==> Digits(s) && DecimalValue(s) == c.value
    ensures c.Int? && c.value < 0 ==> |s| > 1 && s[0] == '-' && Digits(s[1..]) && DecimalValue(s[1..]) == -c.value
    ensures c.Null? ==> s == "None"
  {
    match c
    case Text(s) => s
    case Int(n) =>
      if n < 0 then
        var d := Decimal(-n);
        assert ("-" + d)[1..] == d;
        "-" + d
      else Decimal(n)
    case Null => "None"
  }

  predicate Digits(s: string) {
    forall i :: 0 <= i < |s| ==> '0' <= s[i] <= '9'
  }

  /** The number a string of decimal digits denotes, most significant first. */
  function DecimalValue(s: string): nat
    requires Digits(s)
  {
    if s == [] then 0 else DecimalValue(s[..|s| - 1]) * 10 + (s[|s| - 1] - '0') as nat
  }

  /**
   The decimal digits of `n`, most significant first: the integer cells a
   frame may hold (the repetition counts) are written this way by `str()`.
   */
  function Decimal(n: nat): (s: string)
    ensures |s| > 0 && Digits(s)
    ensures DecimalValue(s) == n
    ensures n > 0 ==> s[0] != '0'
    decreases n
  {
    var digit := ['0' + (n % 10) as char];
    if n < 10 then digit
    else
      var s := Decimal(n / 10) + digit;
      assert s[..|s| - 1] == Decimal(n / 10);
      s
  }

  /** `series.astype(str)`. */
  function AsText(cells: seq<Cell>): (r: seq<Cell>)
    ensures |r| == |cells| && forall i :: 0 <= i < |cells| ==> r[i] == Text(CellText(cells[i]))
  {
    seq(|cells|, i requires 0 <= i < |cells| => Text(CellText(cells[i])))
  }

  /**
   `series.value_counts().reset_index()` with its columns renamed to `key`
   and `count`, built from the value-count table `t` of the series.
   */
  function CountsFrame(t: seq<(Cell, nat)>, key: Label, count: Label): (r: Frame)
    requires key != count
    ensures WellFormed(r) && r.columns == [key, count]
    ensures |r.rows| == |t| && forall i :: 0 <= i < |t| ==> r.rows[i] == CountRow(t[i], key, count)
  {
    assert Names([key, count]) == {key, count};
    Frame([key, count], seq(|t|, i requires 0 <= i < |t| => CountRow(t[i], key, count)))
  }

  /** The key cells of a value-count frame are the table's values. */
  lemma CountsFrameKeys(t: seq<(Cell, nat)>, key: Label, count: Label)
    requires key != count
    ensures forall j :: 0 <= j < |t| ==> key in CountsFrame(t, key, count).rows[j]
    ensures KeyCells(CountsFrame(t, key, count).rows, key) == Firsts(t)
  {
    var rows := CountsFrame(t, key, count).rows;
    forall j | 0 <= j < |t|
      ensures key in rows[j] && rows[j][key] == t[j].0
    {
      assert rows[j] == CountRow(t[j], key, count);
    }
  }

  /** Distinct table values give unique keys in the value-count frame. */
  lemma CountsFrameUnique(t: seq<(Cell, nat)>, key: Label, count: Label)
    requires key != count && Distinct(Firsts(t))
    ensures forall j :: 0 <= j < |t| ==> key in CountsFrame(t, key, count).rows[j]
    ensures UniqueKeys(CountsFrame(t, key, count).rows, key)
  {
    CountsFrameKeys(t, key, count);
    var ks := KeyCells(CountsFrame(t, key, count).rows, key);
    forall j1, j2 | 0 <= j1 < j2 < |t|
      ensures CountsFrame(t, key, count).rows[j1][key] != CountsFrame(t, key, count).rows[j2][key]
    {
      assert ks[j1] != ks[j2];
    }
  }

  /** One row of a value-count table. */
  function CountRow(e: (Cell, nat), key: Label, count: Label): (r: Row)
    ensures r.Keys == {key, count}
  {
    map[key := e.0, count := Int(e.1)]
  }

  /** Every row whose `on` cell equals `k` is among the matching rows. */
  lemma {:induction false} MatchingComplete(rows: seq<Row>, on: Label, k: Cell, j: nat)
    requires forall i :: 0 <= i < |rows| ==> on in rows[i]
    requires j < |rows| && rows[j][on] == k
    ensures rows[j] in Matching(rows, on, k)
  {
    var init := rows[..|rows| - 1];
    if j < |rows| - 1 {
      assert rows[j] == init[j];
      MatchingComplete(init, on, k, j);
    }
  }

  /**
   Matching keeps the order of the rows: the matches in `a + b` are the
   matches in `a` followed by those in `b`.
   */
  lemma {:induction false} MatchingConcat(a: seq<Row>, b: seq<Row>, on: Label, k: Cell)
    requires forall i :: 0 <= i < |a| ==> on in a[i]
    requires forall i :: 0 <= i < |b| ==> on in b[i]
    ensures Matching(a + b, on, k) == Matching(a, on, k) + Matching(b, on, k)
  {
    if b == [] {
      assert a + b == a;
    } else {
      var init, last := b[..|b| - 1], b[|b| - 1];
      assert (a + b)[..|a + b| - 1] == a + init;
      MatchingConcat(a, init, on, k);
    }
  }

  /** The rows of `rows` whose `on` cell equals `k`, in their order. */
  function Matching(rows: seq<Row>, on: Label, k: Cell): (r: seq<Row>)
    requires forall j :: 0 <= j < |rows| ==> on in rows[j]
    ensures forall i :: 0 <= i < |r| ==> r[i] in rows && r[i][on] == k
  {
    if rows == [] then []
    else
      var init, last := rows[..|rows| - 1], rows[|rows| - 1];
      Matching(init, on, k) + (if last[on] == k then [last] else [])
  }

  /** A row that holds None in each of `columns`. */
  function Nulls(columns: seq<Label>): (r: Row)
    ensures r.Keys == Names(columns)
  {
    map c | c in columns :: Null
  }

  /**
   The output rows of a left merge for one left row: one per matching right
   row, or, when nothing matches, the left row padded with None.
   */
  function Joined(l: Row, right: seq<Row>, on: Label, extra: seq<Label>): (r: seq<Row>)
    requires on in l
    requires forall j :: 0 <= j < |right| ==> on in right[j]
    ensures |r| == if Matching(right, on, l[on]) == [] then 1 else |Matching(right, on, l[on])|
    ensures forall i :: 0 <= i < |r| ==> l.Keys <= r[i].Keys
  {
    var ms := Matching(right, on, l[on]);
    if ms == [] then [l + Nulls(extra)]
    else seq(|ms|, i requires 0 <= i < |ms| => Extend(l, ms[i], on))
  }

  /** A left row extended by the cells of a matching right row other than the key. */
  function Extend(l: Row, m: Row, on: Label): Row {
    l + (m - {on})
  }

  /** Extending by a row of a value-count table adds just its count. */
  lemma ExtendCountRow(l: Row, e: (Cell, nat), key: Label, count: Label)
    requires key != count
    ensures Extend(l, CountRow(e, key, count), key) == l[count := Int(e.1)]
  {
    assert CountRow(e, key, count) - {key} == map[count := Int(e.1)];
  }

  /** The output rows of a left merge, grouped by the left row they come from. */
  function JoinedAll(left: seq<Row>, right: seq<Row>, on: Label, extra: seq<Label>): (r: seq<seq<Row>>)
    requires forall i :: 0 <= i < |left| ==> on in left[i]
    requires forall j :: 0 <= j < |right| ==> on in right[j]
    ensures |r| == |left| && forall i :: 0 <= i < |left| ==> r[i] == Joined(left[i], right, on, extra)
  {
    seq(|left|, i requires 0 <= i < |left| => Joined(left[i], right, on, extra))
  }

  /** The groups, one after the other. */
  function Flatten<T>(xss: seq<seq<T>>): seq<T> {
    if xss == [] then [] else Flatten(xss[..|xss| - 1]) + xss[|xss| - 1]
  }

  /** All output rows of a left merge, in the order of the left rows. */
  function MergeRows(left: seq<Row>, right: seq<Row>, on: Label, extra: seq<Label>): (r: seq<Row>)
    requires forall i :: 0 <= i < |left| ==> on in left[i]
    requires forall j :: 0 <= j < |right| ==> on in right[j]
    ensures |left| <= |r|
  {
    var groups := JoinedAll(left, right, on, extra);
    FlattenAtLeast(groups);
    Flatten(groups)
  }

  /** Groups that are never empty flatten to at least one element per group. */
  lemma {:induction false} FlattenAtLeast<T>(xss: seq<seq<T>>)
    requires forall i :: 0 <= i < |xss| ==> |xss[i]| >= 1
    ensures |xss| <= |Flatten(xss)|
  {
    if xss != [] {
      FlattenAtLeast(xss[..|xss| - 1]);
    }
  }

  /** Flattening groups of one element each keeps the elements, one for one. */
  lemma {:induction false} FlattenSingletons<T>(xss: seq<seq<T>>)
    requires forall i :: 0 <= i < |xss| ==> |xss[i]| == 1
    ensures |Flatten(xss)| == |xss|
    ensures forall i :: 0 <= i < |xss| ==> Flatten(xss)[i] == xss[i][0]
  {
    if xss != [] {
      var init := xss[..|xss| - 1];
      FlattenSingletons(init);
      forall i | 0 <= i < |xss|
        ensures Flatten(xss)[i] == xss[i][0]
      {
        if i < |init| {
          assert init[i] == xss[i];
        }
      }
    }
  }

  /** Flattening groups of rows that share one set of columns gives rows that share it. */
  lemma {:induction false} FlattenKeys(xss: seq<seq<Row>>, keys: set<Label>)
    requires forall i, j :: 0 <= i < |xss| && 0 <= j < |xss[i]| ==> xss[i][j].Keys == keys
    ensures forall k :: 0 <= k < |Flatten(xss)| ==> Flatten(xss)[k].Keys == keys
  {
    if xss != [] {
      var init: seq<seq<Row>> := xss[..|xss| - 1];
      forall i, j | 0 <= i < |init| && 0 <= j < |init[i]|
        ensures init[i][j].Keys == keys
      {
        assert init[i] == xss[i];
      }
      FlattenKeys(init, keys);
    }
  }

  /** Every output row for one left row has the left row's columns and the `extra` columns. */
  lemma JoinedKeys(l: Row, right: seq<Row>, on: Label, extra: seq<Label>)
    requires on in l
    requires forall j :: 0 <= j < |right| ==> on in right[j]
    requires forall j :: 0 <= j < |right| ==> right[j].Keys - {on} == Names(extra)
    ensures forall i :: 0 <= i < |Joined(l, right, on, extra)| ==> Joined(l, right, on, extra)[i].Keys == l.Keys + Names(extra)
  {
    var ms := Matching(right, on, l[on]);
    forall i | 0 <= i < |ms|
      ensures ms[i].Keys - {on} == Names(extra)
    {
      var m := ms[i];
      assert m in right;
    }
  }

  /** Left rows that share one set of columns give merged rows that share one set of columns. */
  lemma MergeRowsKeys(left: seq<Row>, right: seq<Row>, on: Label, extra: seq<Label>, keys: set<Label>)
    requires forall i :: 0 <= i < |left| ==> on in left[i] && left[i].Keys == keys
    requires forall j :: 0 <= j < |right| ==> on in right[j]
    requires forall j :: 0 <= j < |right| ==> right[j].Keys - {on} == Names(extra)
    ensures forall i :: 0 <= i < |MergeRows(left, right, on, extra)| ==>
              MergeRows(left, right, on, extra)[i].Keys == keys + Names(extra)
  {
    var xss: seq<seq<Row>> := JoinedAll(left, right, on, extra);
    forall i, j | 0 <= i < |xss| && 0 <= j < |xss[i]|
      ensures xss[i][j].Keys == keys + Names(extra)
    {
      JoinedKeys(left[i], right, on, extra);
    }
    FlattenKeys(xss, keys + Names(extra));
  }

  /**
   `left.merge(right, on=on, how='left')`, for right-hand columns other than
   `on` that the left frame does not have (otherwise pandas adds suffixes).
   */
  function MergeLeft(left: Frame, right: Frame, on: Label): (r: Frame)
    requires WellFormed(left) && WellFormed(right)
    requires on in left.columns && on in right.columns
    requires forall c :: c in right.columns && c != on ==> c !in left.columns
    ensures WellFormed(r)
    ensures r.columns == left.columns + Without(right.columns, on)
  {
    var extra := Without(right.columns, on);
    assert forall j :: 0 <= j < |right.rows| ==> right.rows[j].Keys - {on} == Names(extra);
    var rows := MergeRows(left.rows, right.rows, on, extra);
    MergeRowsKeys(left.rows, right.rows, on, extra, Names(left.columns));
    assert Names(left.columns + extra) == Names(left.columns) + Names(extra);
    assert Distinct(left.columns + extra) by {
      forall i, j | 0 <= i < j < |left.columns + extra|
        ensures (left.columns + extra)[i] != (left.columns + extra)[j]
      {
        if j >= |left.columns| && i < |left.columns| {
          assert (left.columns + extra)[j] in Names(extra);
        }
      }
    }
    Frame(left.columns + extra, rows)
  }

  lemma {:induction false} MatchingNone(rows: seq<Row>, on: Label, k: Cell)
    requires forall i :: 0 <= i < |rows| ==> on in rows[i] && rows[i][on] != k
    ensures Matching(rows, on, k) == []
  {
    if rows != [] {
      MatchingNone(rows[..|rows| - 1], on, k);
    }
  }

  /** When exactly one row carries key `k`, matching on `k` finds that row alone. */
  lemma {:induction false} MatchingUnique(rows: seq<Row>, on: Label, j: nat)
    requires forall i :: 0 <= i < |rows| ==> on in rows[i]
    requires j < |rows|
    requires forall i :: 0 <= i < |rows| && i != j ==> rows[i][on] != rows[j][on]
    ensures Matching(rows, on, rows[j][on]) == [rows[j]]
  {
    var init := rows[..|rows| - 1];
    if j == |rows| - 1 {
      MatchingNone(init, on, rows[j][on]);
    } else {
      MatchingUnique(init, on, j);
    }
  }

  /**
   One left row whose key occurs exactly once among the right rows yields
   exactly one merged row: itself extended by that right row.
   */
  lemma JoinedUnique(l: Row, right: seq<Row>, on: Label, extra: seq<Label>, j: nat)
    requires on in l
    requires forall i :: 0 <= i < |right| ==> on in right[i]
    requires j < |right| && right[j][on] == l[on]
    requires forall i :: 0 <= i < |right| && i != j ==> right[i][on] != right[j][on]
    ensures Joined(l, right, on, extra) == [Extend(l, right[j], on)]
  {
    MatchingUnique(right, on, j);
  }

  /** No two rows carry the same `on` cell. */
  predicate UniqueKeys(rows: seq<Row>, on: Label)
    requires forall j :: 0 <= j < |rows| ==> on in rows[j]
  {
    forall j1, j2 :: 0 <= j1 < j2 < |rows| ==> rows[j1][on] != rows[j2][on]
  }

  /** Every row of `left` finds its `on` cell among the rows of `right`. */
  predicate Covered(left: seq<Row>, right: seq<Row>, on: Label)
    requires forall i :: 0 <= i < |left| ==> on in left[i]
    requires forall j :: 0 <= j < |right| ==> on in right[j]
  {
    forall i :: 0 <= i < |left| ==> left[i][on] in KeyCells(right, on)
  }

  /** The `on` cells of `rows`, top to bottom. */
  function KeyCells(rows: seq<Row>, on: Label): (cells: seq<Cell>)
    requires forall j :: 0 <= j < |rows| ==> on in rows[j]
    ensures |cells| == |rows| && forall j :: 0 <= j < |rows| ==> cells[j] == rows[j][on]
  {
    seq(|rows|, j requires 0 <= j < |rows| => rows[j][on])
  }

  /** Under unique keys, the row at `j` is the only one carrying its key. */
  lemma UniqueKeysAt(rows: seq<Row>, on: Label, j: nat)
    requires forall i :: 0 <= i < |rows| ==> on in rows[i]
    requires UniqueKeys(rows, on) && j < |rows|
    ensures forall i :: 0 <= i < |rows| && i != j ==> rows[i][on] != rows[j][on]
  {
    forall i | 0 <= i < |rows| && i != j
      ensures rows[i][on] != rows[j][on]
    {
      if i < j {} else {}
    }
  }

  /**
   The conditions under which a left merge keeps its left rows one for one:
   every row has the key column, the right keys are unique, and every left
   key occurs on the right.
   */
  predicate Joinable(left: seq<Row>, right: seq<Row>, on: Label) {
    && (forall i :: 0 <= i < |left| ==> on in left[i])
    && (forall j :: 0 <= j < |right| ==> on in right[j])
    && UniqueKeys(right, on) && Covered(left, right, on)
  }

  /** The position of the right row that a left row finds. */
  lemma MatchOf(left: seq<Row>, right: seq<Row>, on: Label, i: nat) returns (j: nat)
    requires Joinable(left, right, on) && i < |left|
    ensures j < |right| && right[j][on] == left[i][on]
  {
    var ks := KeyCells(right, on);
    assert left[i][on] in ks;
    j :| 0 <= j < |ks| && ks[j] == left[i][on];
  }

  /** Under these conditions every left row yields exactly one merged row. */
  lemma JoinedSingletons(left: seq<Row>, right: seq<Row>, on: Label, extra: seq<Label>)
    requires Joinable(left, right, on)
    ensures forall i :: 0 <= i < |left| ==> |JoinedAll(left, right, on, extra)[i]| == 1
  {
    forall i | 0 <= i < |left|
      ensures |Joined(left[i], right, on, extra)| == 1
    {
      var j := MatchOf(left, right, on, i);
      UniqueKeysAt(right, on, j);
      JoinedUnique(left[i], right, on, extra, j);
    }
  }

  /** A left merge against right rows whose key cells are distinct and cover every left key keeps the row count. */
  lemma MergeRowsLength(left: seq<Row>, right: seq<Row>, on: Label, extra: seq<Label>)
    requires Joinable(left, right, on)
    ensures |MergeRows(left, right, on, extra)| == |left|
  {
    JoinedSingletons(left, right, on, extra);
    FlattenSingletons(JoinedAll(left, right, on, extra));
  }

  /**
   Under the same conditions, the merged row at position `i` is the left row
   at `i`, extended by the cells of the right row whose key it carries.
   */
  lemma MergeRowsAt(left: seq<Row>, right: seq<Row>, on: Label, extra: seq<Label>, i: nat, k: nat)
    requires Joinable(left, right, on)
    requires i < |left| && k < |right| && right[k][on] == left[i][on]
    ensures |MergeRows(left, right, on, extra)| == |left|
    ensures MergeRows(left, right, on, extra)[i] == Extend(left[i], right[k], on)
  {
    JoinedSingletons(left, right, on, extra);
    FlattenSingletons(JoinedAll(left, right, on, extra));
    UniqueKeysAt(right, on, k);
    JoinedUnique(left[i], right, on, extra, k);
  }
}
