/**
 * The loaded dataset as the dashboard sees it: named columns, rows of cells, and
 * the forgiving resolution of a logical field to an actual column name through the
 * map from lower-cased names to names.
 */
module DashboardFrame {
  import opened Strings

  /** A cell is numeric (an integer or float column) or text. Missing values are not modelled. */
  datatype Cell = Num(value: real) | Text(text: string)

  type Row = map<string, Cell>

  datatype Table = Table(columns: seq<string>, rows: seq<Row>)

  /** The row holds a cell for each of `columns` and for nothing else. */
  ghost predicate RowFits(row: Row, columns: seq<string>) {
    forall c :: c in row <==> c in columns
  }

  /** Every row of the table fits its columns. */
  ghost predicate WellFormed(t: Table) {
    forall i :: 0 <= i < |t.rows| ==> RowFits(t.rows[i], t.columns)
  }

  /** The cell of `row` in column `col`; a column the row lacks reads as the number 0. */
  function CellAt(row: Row, col: string): Cell {
    if col in row then row[col] else Num(0.0)
  }

  /** The numeric reading of a cell: its value, or 0 for text. */
  function NumberAt(row: Row, col: string): real {
    match CellAt(row, col)
    case Num(x) => x
    case Text(_) => 0.0
  }

  /** Some column of `columns` lower-cases to `lowered`. */
  predicate HasColumn(columns: seq<string>, lowered: string) {
    exists i | 0 <= i < |columns| :: Lower(columns[i]) == lowered
  }

  /**
   * `{c.lower(): c for c in df.columns}`: maps each lower-cased name to a column
   * with that lower-cased name; a later column overrides an earlier one.
   */
  function ColumnMap(columns: seq<string>): (m: map<string, string>)
    ensures forall k :: k in m ==> m[k] in columns && Lower(m[k]) == k
    ensures forall k :: k in m <==> HasColumn(columns, k)
  {
    if columns == [] then map[]
    else
      var last := columns[|columns| - 1];
      var m := ColumnMap(columns[..|columns| - 1]);
      assert forall k :: HasColumn(columns, k) <==> HasColumn(columns[..|columns| - 1], k) || Lower(last) == k by {
        forall k | HasColumn(columns, k) && Lower(last) != k
          ensures HasColumn(columns[..|columns| - 1], k)
        {
          var i :| 0 <= i < |columns| && Lower(columns[i]) == k;
          assert columns[..|columns| - 1][i] == columns[i];
        }
        forall k | HasColumn(columns[..|columns| - 1], k)
          ensures HasColumn(columns, k)
        {
          var i :| 0 <= i < |columns| - 1 && Lower(columns[..|columns| - 1][i]) == k;
          assert columns[i] == columns[..|columns| - 1][i];
        }
      }
      m[Lower(last) := last]
  }

  /** Of two columns with the same lower-cased name, the map keeps the later one. */
  lemma {:induction false} ColumnMapKeepsLast(columns: seq<string>, i: int)
    requires 0 <= i < |columns|
    requires forall j :: i < j < |columns| ==> Lower(columns[j]) != Lower(columns[i])
    ensures ColumnMap(columns)[Lower(columns[i])] == columns[i]
  {
    if i < |columns| - 1 {
      var init := columns[..|columns| - 1];
      assert init[i] == columns[i];
      forall j | i < j < |init|
        ensures Lower(init[j]) != Lower(init[i])
      {
        assert init[j] == columns[j];
      }
      ColumnMapKeepsLast(init, i);
    }
  }

  /** `d.get(key, fallback)`. */
  function Get(m: map<string, string>, key: string, fallback: string): string {
    if key in m then m[key] else fallback
  }

  /**
   * `col_map.get(first, col_map.get(second, fallback))`: a column whose lower-cased
   * name is `first`, else one whose lower-cased name is `second`, else `fallback`.
   */
  function ResolveColumn(columns: seq<string>, first: string, second: string, fallback: string): (name: string)
    ensures HasColumn(columns, first) ==> name in columns && Lower(name) == first
    ensures !HasColumn(columns, first) && HasColumn(columns, second) ==> name in columns && Lower(name) == second
    ensures !HasColumn(columns, first) && !HasColumn(columns, second) ==> name == fallback
  {
    var m := ColumnMap(columns);
    Get(m, first, Get(m, second, fallback))
  }

  /** `df[name] = fill` as a value: every row gets `fill` under `name`, a new name is appended. */
  function WithColumn(t: Table, name: string, fill: Cell): (r: Table)
    ensures WellFormed(t) ==> WellFormed(r)
    ensures r.columns == if name in t.columns then t.columns else t.columns + [name]
    ensures |r.rows| == |t.rows|
    ensures forall i :: 0 <= i < |t.rows| ==> r.rows[i] == t.rows[i][name := fill]
  {
    var r := Table(if name in t.columns then t.columns else t.columns + [name],
                   seq(|t.rows|, i requires 0 <= i < |t.rows| => t.rows[i][name := fill]));
    assert WellFormed(t) ==> WellFormed(r) by {
      if WellFormed(t) {
        forall i | 0 <= i < |r.rows|
          ensures RowFits(r.rows[i], r.columns)
        {
          assert RowFits(t.rows[i], t.columns);
        }
      }
    }
    r
  }

  /** The header with every `from` renamed to `to`. */
  function RenamedColumns(columns: seq<string>, from: string, to: string): (r: seq<string>)
    ensures |r| == |columns|
    ensures forall i :: 0 <= i < |columns| ==> r[i] == if columns[i] == from then to else columns[i]
  {
    seq(|columns|, i requires 0 <= i < |columns| => if columns[i] == from then to else columns[i])
  }

  /** A row whose cell under `from` is moved to `to`. */
  function RenamedRow(row: Row, from: string, to: string): Row {
    if from in row then (row - {from})[to := row[from]] else row
  }

  /** `df.rename(columns={from: to})`: the header and every row. */
  function RenameColumn(t: Table, from: string, to: string): (r: Table)
    ensures r.columns == RenamedColumns(t.columns, from, to)
    ensures |r.rows| == |t.rows|
    ensures forall i :: 0 <= i < |t.rows| ==> r.rows[i] == RenamedRow(t.rows[i], from, to)
  {
    Table(RenamedColumns(t.columns, from, to),
          seq(|t.rows|, i requires 0 <= i < |t.rows| => RenamedRow(t.rows[i], from, to)))
  }

  /** The renamed header holds `to` where it held `from`, and keeps every other name. */
  lemma RenamedColumnsMembers(columns: seq<string>, from: string, to: string)
    ensures forall c :: c in RenamedColumns(columns, from, to) <==>
      (c == to && from in columns) || (c in columns && c != from)
  {
    var r := RenamedColumns(columns, from, to);
    forall c | c in r
      ensures (c == to && from in columns) || (c in columns && c != from)
    {
      var i :| 0 <= i < |r| && r[i] == c;
      assert columns[i] in columns;
    }
    forall c | (c == to && from in columns) || (c in columns && c != from)
      ensures c in r
    {
      var i :| 0 <= i < |columns| && (if c == to && from in columns then columns[i] == from else columns[i] == c);
      assert r[i] == c;
    }
  }

  /** A renamed row shows the old `from` cell under `to` and every other cell unchanged. */
  lemma RenamedRowCells(row: Row, from: string, to: string)
    ensures from in row ==> CellAt(RenamedRow(row, from, to), to) == CellAt(row, from)
    ensures forall c :: c != from && c != to ==> CellAt(RenamedRow(row, from, to), c) == CellAt(row, c)
  {
  }

  /** Renaming to a name the header lacks keeps the table well formed. */
  lemma RenameWellFormed(t: Table, from: string, to: string)
    requires WellFormed(t) && to !in t.columns
    ensures WellFormed(RenameColumn(t, from, to))
  {
    var r := RenameColumn(t, from, to);
    RenamedColumnsMembers(t.columns, from, to);
    forall i | 0 <= i < |r.rows|
      ensures RowFits(r.rows[i], r.columns)
    {
      assert RowFits(t.rows[i], t.columns);
    }
  }

  /**
   * Renaming one column changes the column map only at the lower-cased old and new
   * names: every other key is present in both or neither, naming the same column.
   */
  lemma {:induction false} ColumnMapRename(columns: seq<string>, from: string, to: string, k: string)
    requires k != Lower(from) && k != Lower(to)
    ensures var m, r := ColumnMap(columns), ColumnMap(RenamedColumns(columns, from, to));
      (k in r <==> k in m) && (k in m ==> r[k] == m[k])
  {
    if columns != [] {
      var n := |columns| - 1;
      assert RenamedColumns(columns, from, to)[..n] == RenamedColumns(columns[..n], from, to);
      ColumnMapRename(columns[..n], from, to, k);
    }
  }

  /** A pandas DataFrame that operations update in place. */
  class Frame {
    var columns: seq<string>
    var rows: seq<Row>

    ghost predicate Valid()
      reads this
    {
      WellFormed(Table(columns, rows))
    }

    function Snapshot(): Table
      reads this
    {
      Table(columns, rows)
    }

    constructor (t: Table)
      requires WellFormed(t)
      ensures Valid() && Snapshot() == t
    {
      columns := t.columns;
      rows := t.rows;
    }

    /** `df[name] = fill`: one value broadcast down the column, which is added when new. */
    method SetColumn(name: string, fill: Cell)
      requires Valid()
      modifies this
      ensures Valid()
      ensures Snapshot() == WithColumn(old(Snapshot()), name, fill)
    {
      ghost var before := Snapshot();
      if name !in columns {
        columns := columns + [name];
      }
      var current := rows;
      rows := seq(|current|, i requires 0 <= i < |current| => current[i][name := fill]);
      assert Snapshot() == WithColumn(before, name, fill);
    }
  }
}
