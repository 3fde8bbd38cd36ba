/**
 * The cleaning half of `scrape_lap_data` in app20.py: raw table rows (the
 * text of each cell) become lap records with numeric fields, incomplete
 * rows are dropped and the rest are ordered by lap number.
 */
module LapTableBuilder {
  import opened Wrappers
  import opened TimeParser
  import opened Sorting
  import Text

  /** The text of the cells of one displayed table line. */
  type RawRow = seq<string>

  /** The fixed column layout: Lap Number, Pos, Pos Change, Lap Time, Gap, Interval. */
  const ColumnCount := 6

  /** A row fewer than this many cells wide is not a lap line. */
  const MinCells := 4

  /**
   * A row of the table after every column has been coerced and before any
   * row is dropped: each field may be absent.
   */
  datatype ParsedRow = ParsedRow(
    lapNumber: Option<int>,
    pos: Option<int>,
    posChange: Option<string>,
    lapTime: Option<real>,
    gap: Option<real>,
    interval: Option<real>)

  /**
   * A lap of the cleaned table. `lapTime` and `lapTimeSeconds` are the
   * `Lap Time` and `Lap Time (s)` columns, which hold the same value.
   */
  datatype LapRecord = LapRecord(
    lapNumber: int,
    pos: Option<int>,
    posChange: Option<string>,
    lapTime: real,
    gap: Option<real>,
    interval: Option<real>,
    lapTimeSeconds: real)

  /** Building the DataFrame fails when the widest row is not exactly as wide as the column list. */
  datatype TableError = ColumnCountMismatch(passedColumns: nat)

  // ----- Row collection -----

  /** The rows wide enough to be lap lines, in their original order. */
  function WideRows(rows: seq<RawRow>): (data: seq<RawRow>)
    ensures |data| <= |rows|
    ensures forall i :: 0 <= i < |data| ==> |data[i]| >= MinCells
    decreases |rows|
  {
    if rows == [] then []
    else
      var last := rows[|rows| - 1];
      assert rows == rows[..|rows| - 1] + [last];
      WideRows(rows[..|rows| - 1]) + (if |last| >= MinCells then [last] else [])
  }

  /** The loop that keeps every row of at least four cells. */
  method CollectRows(rows: seq<RawRow>) returns (data: seq<RawRow>)
    ensures data == WideRows(rows)
  {
    data := [];
    for i := 0 to |rows|
      invariant data == WideRows(rows[..i])
    {
      assert rows[..i + 1][..i] == rows[..i];
      if |rows[i]| >= MinCells {
        data := data + [rows[i]];
      }
    }
    assert rows[..|rows|] == rows;
  }

  /** The number of cells of the widest row, which is the number of columns pandas sees. */
  function MaxWidth(data: seq<RawRow>): (w: nat)
    ensures forall i :: 0 <= i < |data| ==> |data[i]| <= w
    ensures data != [] ==> exists i :: 0 <= i < |data| && |data[i]| == w
  {
    if data == [] then 0
    else
      var w := MaxWidth(data[1..]);
      assert forall i :: 1 <= i < |data| ==> data[i] == data[1..][i - 1];
      if |data[0]| >= w then |data[0]| else w
  }

  // ----- Column cleaning -----

  /** Cell `k` of a row; cells past the end of a short row are missing. */
  function Cell(row: RawRow, k: nat): Option<string>
  {
    if k < |row| then Some(row[k]) else None
  }

  /** `pd.to_numeric(..., errors='coerce')` on an integer column: absent on failure. */
  function ToNumeric(cell: Option<string>): Option<int>
  {
    match cell
    case None => None
    case Some(s) => ParseInt(s)
  }

  /** Every column of one row, coerced. */
  function ParseRow(row: RawRow): ParsedRow
  {
    ParsedRow(
      ToNumeric(Cell(row, 0)),
      ToNumeric(Cell(row, 1)),
      Cell(row, 2),
      ParseLapTime(Cell(row, 3)),
      ParseLapTime(Cell(row, 4)),
      ParseLapTime(Cell(row, 5)))
  }

  /** `dropna` on Lap Number and Lap Time: a record when both are present. */
  function Complete(p: ParsedRow): (r: Option<LapRecord>)
    ensures r.Some? <==> p.lapNumber.Some? && p.lapTime.Some?
    ensures r.Some? ==>
      && r.value.lapNumber == p.lapNumber.value
      && r.value.lapTime == p.lapTime.value
      && r.value.lapTimeSeconds == r.value.lapTime
      && r.value.pos == p.pos && r.value.posChange == p.posChange
      && r.value.gap == p.gap && r.value.interval == p.interval
  {
    match (p.lapNumber, p.lapTime)
    case (Some(n), Some(t)) => Some(LapRecord(n, p.pos, p.posChange, t, p.gap, p.interval, t))
    case _ => None
  }

  /** The record a raw row becomes, if it survives the drop. */
  function RowRecord(row: RawRow): Option<LapRecord>
  {
    Complete(ParseRow(row))
  }

  /** The records of the rows that survive the drop, in row order. */
  function Survivors(data: seq<RawRow>): (r: seq<LapRecord>)
    ensures |r| <= |data|
    decreases |data|
  {
    if data == [] then []
    else
      var init, last := data[..|data| - 1], data[|data| - 1];
      assert data == init + [last];
      Survivors(init) + (match RowRecord(last) case Some(rec) => [rec] case None => [])
  }

  function LapNumberKey(lap: LapRecord): real
  {
    lap.lapNumber as real
  }

  /** Lines 59-67 after the row filter: coerce, drop incomplete rows, sort by lap number. */
  function CleanTable(data: seq<RawRow>): (table: seq<LapRecord>)
    ensures forall i, j :: 0 <= i < j < |table| ==> table[i].lapNumber <= table[j].lapNumber
    ensures multiset(table) == multiset(Survivors(data))
  {
    var table := SortBy(Survivors(data), LapNumberKey);
    SortByOrderedPermutation(Survivors(data), LapNumberKey);
    assert forall i, j :: 0 <= i < j < |table| ==> LapNumberKey(table[i]) <= LapNumberKey(table[j]);
    table
  }

  /**
   * `scrape_lap_data` from the collected rows on: the DataFrame cannot be
   * built when rows were kept but the widest is not six cells wide;
   * otherwise the cleaned table.
   */
  function BuildLapTable(rows: seq<RawRow>): Result<seq<LapRecord>, TableError>
  {
    var data := WideRows(rows);
    if |data| > 0 && MaxWidth(data) != ColumnCount then
      Err(ColumnCountMismatch(MaxWidth(data)))
    else
      Ok(CleanTable(data))
  }

  // ----- Properties -----

  /** The row filter keeps exactly the rows of at least four cells. */
  lemma {:induction false} WideRowsMembers(rows: seq<RawRow>)
    ensures forall row :: row in WideRows(rows) <==> row in rows && |row| >= MinCells
  {
    if rows != [] {
      WideRowsMembers(rows[..|rows| - 1]);
      assert rows == rows[..|rows| - 1] + [rows[|rows| - 1]];
    }
  }

  /** A record survives exactly when some row converts to it. */
  lemma {:induction false} SurvivorsMembers(data: seq<RawRow>)
    ensures forall rec :: rec in Survivors(data) <==> exists row :: row in data && RowRecord(row) == Some(rec)
  {
    if data != [] {
      SurvivorsMembers(data[..|data| - 1]);
      assert data == data[..|data| - 1] + [data[|data| - 1]];
    }
  }

  /**
   * Building fails exactly when a kept line is wider than six cells, or
   * lines were kept and none of them is six cells wide.
   */
  lemma BuildLapTableSucceeds(rows: seq<RawRow>)
    ensures BuildLapTable(rows).Ok? <==>
      && (forall row :: row in rows && |row| >= MinCells ==> |row| <= ColumnCount)
      && ((exists row :: row in rows && |row| >= MinCells) ==> exists row :: row in rows && |row| == ColumnCount)
  {
    var data := WideRows(rows);
    WideRowsMembers(rows);
    if |data| > 0 {
      var w := MaxWidth(data);
      var i :| 0 <= i < |data| && |data[i]| == w;
      assert data[i] in rows;
    }
  }

  /** The fields of the record a row of at least four cells becomes. */
  lemma RowRecordFields(row: RawRow, rec: LapRecord)
    requires |row| >= MinCells && RowRecord(row) == Some(rec)
    ensures ParseInt(row[0]) == Some(rec.lapNumber)
    ensures ParseLapTime(Some(row[3])) == Some(rec.lapTime)
    ensures rec.lapTimeSeconds == rec.lapTime
    ensures rec.posChange == Some(row[2]) && rec.pos == ParseInt(row[1])
    ensures rec.gap == ParseLapTime(Cell(row, 4)) && rec.interval == ParseLapTime(Cell(row, 5))
    ensures |row| == MinCells ==> rec.gap.None? && rec.interval.None?
  {
    assert Cell(row, 0) == Some(row[0]) && Cell(row, 1) == Some(row[1]);
    assert Cell(row, 2) == Some(row[2]) && Cell(row, 3) == Some(row[3]);
  }

  /** A record of the cleaned table is one of the survivors of the drop. */
  lemma CleanTableMember(data: seq<RawRow>, rec: LapRecord)
    requires rec in CleanTable(data)
    ensures rec in Survivors(data)
  {
    assert rec in multiset(CleanTable(data));
  }

  /**
   * Every record of a built table comes from a raw row of at least four
   * cells whose lap number and lap time parsed; Lap Time is the parsed
   * seconds, equal to Lap Time (s); Pos Change is the cell text untouched;
   * Gap and Interval are parsed from cells 4 and 5, absent on a four-cell row.
   */
  lemma BuildLapTableRecords(rows: seq<RawRow>, rec: LapRecord)
    requires BuildLapTable(rows).Ok? && rec in BuildLapTable(rows).value
    ensures exists row ::
      && row in rows
      && MinCells <= |row| <= ColumnCount
      && ParseInt(row[0]) == Some(rec.lapNumber)
      && ParseLapTime(Some(row[3])) == Some(rec.lapTime)
      && rec.lapTimeSeconds == rec.lapTime
      && rec.posChange == Some(row[2])
      && rec.pos == ParseInt(row[1])
      && rec.gap == ParseLapTime(Cell(row, 4))
      && rec.interval == ParseLapTime(Cell(row, 5))
      && (|row| == MinCells ==> rec.gap.None? && rec.interval.None?)
  {
    var data := WideRows(rows);
    CleanTableMember(data, rec);
    SurvivorsMembers(data);
    WideRowsMembers(rows);
    var row :| row in data && RowRecord(row) == Some(rec);
    assert row in rows && |row| >= MinCells;
    assert |row| <= MaxWidth(data);
    RowRecordFields(row, rec);
  }

  /**
   * A built table is ordered by lap number and holds exactly the records
   * of the surviving rows, each as often as it occurs: no row is merged or
   * de-duplicated.
   */
  lemma BuildLapTableOrderedPermutation(rows: seq<RawRow>)
    requires BuildLapTable(rows).Ok?
    ensures var table := BuildLapTable(rows).value;
      (forall i, j :: 0 <= i < j < |table| ==> table[i].lapNumber <= table[j].lapNumber)
      && multiset(table) == multiset(Survivors(WideRows(rows)))
      && |table| == |Survivors(WideRows(rows))|
  {
    var table := BuildLapTable(rows).value;
    assert |multiset(table)| == |multiset(Survivors(WideRows(rows)))|;
  }

  /** When every row parses, no row is dropped: one record per row. */
  lemma {:induction false} SurvivorsAllComplete(data: seq<RawRow>)
    requires forall i :: 0 <= i < |data| ==> RowRecord(data[i]).Some?
    ensures |Survivors(data)| == |data|
    ensures |CleanTable(data)| == |data|
  {
    if data != [] {
      SurvivorsAllComplete(data[..|data| - 1]);
    }
    assert |multiset(CleanTable(data))| == |multiset(Survivors(data))|;
  }

  /** When every line is at least four cells wide, the row filter keeps them all. */
  lemma {:induction false} WideRowsAll(rows: seq<RawRow>)
    requires forall i :: 0 <= i < |rows| ==> |rows[i]| >= MinCells
    ensures WideRows(rows) == rows
  {
    if rows != [] {
      WideRowsAll(rows[..|rows| - 1]);
      assert rows == rows[..|rows| - 1] + [rows[|rows| - 1]];
    }
  }

  /** When every line is six cells wide, nothing is filtered and the table is built from all of them. */
  lemma BuildLapTableFullRows(rows: seq<RawRow>)
    requires forall i :: 0 <= i < |rows| ==> |rows[i]| == ColumnCount
    ensures WideRows(rows) == rows
    ensures BuildLapTable(rows) == Ok(CleanTable(rows))
  {
    WideRowsAll(rows);
    if rows != [] {
      var i :| 0 <= i < |rows| && |rows[i]| == MaxWidth(rows);
    }
  }

  /**
   * Two lines reporting the same lap number both stay in the table, as two
   * records: the cleaning keeps duplicates rather than merging them.
   */
  lemma DuplicateLapNumbersKept(a: RawRow, b: RawRow)
    requires RowRecord(a).Some? && RowRecord(b).Some?
    requires RowRecord(a).value.lapNumber == RowRecord(b).value.lapNumber
    ensures |CleanTable([a, b])| == 2
    ensures multiset(CleanTable([a, b])) == multiset{RowRecord(a).value, RowRecord(b).value}
  {
    var rows := [a, b];
    assert rows[..1] == [a];
    assert Survivors(rows) == [RowRecord(a).value, RowRecord(b).value];
    assert |multiset(CleanTable(rows))| == 2;
  }
}
