/** Tables as the pipeline nodes see them: named columns over rows, each row a map from
    column name to cell, and the in-place column assignment `frame[name] = series`. */
module Tables {

  /** One cell of a table. `Missing` stands for a null / NaN cell. */
  datatype Cell = Missing | Int(i: int) | Real(r: real) | Str(s: string) | Bool(b: bool)

  type Row = map<string, Cell>

  /** A table by value: the column names in order, and the rows in order. */
  datatype Table = Table(columns: seq<string>, rows: seq<Row>)

  /** The two kinds of failure the nodes raise: a column lookup on an absent
      column, and a cast to a number of a text that is not a number. */
  datatype Error = MissingColumn(name: string) | FormatError(text: string)

  datatype Option<+T> = None | Some(value: T)

  datatype Result<+T> = Success(value: T) | Failure(error: Error) {
    predicate IsFailure() { Failure? }

    function PropagateFailure<U>(): Result<U>
      requires Failure?
    {
      Failure(error)
    }

    function Extract(): T
      requires Success?
    {
      value
    }
  }

  /** The number a cell holds, if it holds one (integers and floats compare by value). */
  function NumberOf(c: Cell): Option<real> {
    match c
    case Int(i) => Some(i as real)
    case Real(r) => Some(r)
    case _ => None
  }

  /** Equality of cells as the table library uses it to match replacement keys and
      join keys: the same cell, or an integer and a float of equal value. Two missing
      cells match each other, as join keys do in the library. */
  predicate SameValue(a: Cell, b: Cell) {
    a == b || (NumberOf(a).Some? && NumberOf(a) == NumberOf(b))
  }

  predicate NoMissing(row: Row) {
    forall c :: c in row ==> row[c] != Missing
  }

  function ColumnSet(columns: seq<string>): set<string> {
    set c | c in columns
  }

  predicate Distinct(columns: seq<string>) {
    forall i, j :: 0 <= i < j < |columns| ==> columns[i] != columns[j]
  }

  /** Column names are unique and every row has exactly the table's columns. */
  predicate WellFormed(t: Table) {
    Distinct(t.columns) &&
    forall k :: 0 <= k < |t.rows| ==> t.rows[k].Keys == ColumnSet(t.columns)
  }

  /** `t[name]`: the column as a series, one cell per row, in row order. */
  function ColumnOf(t: Table, name: string): (cells: seq<Cell>)
    requires WellFormed(t) && name in t.columns
    ensures |cells| == |t.rows|
    ensures forall k :: 0 <= k < |t.rows| ==> name in t.rows[k] && cells[k] == t.rows[k][name]
  {
    seq(|t.rows|, k requires 0 <= k < |t.rows| => t.rows[k][name])
  }

  /** `t[name] = cells`: overwrites the column where it stands, or appends it when absent. */
  function WithColumn(t: Table, name: string, cells: seq<Cell>): (r: Table)
    requires WellFormed(t) && |cells| == |t.rows|
    ensures WellFormed(r)
    ensures r.columns == if name in t.columns then t.columns else t.columns + [name]
    ensures |r.rows| == |t.rows|
    ensures forall k :: 0 <= k < |r.rows| ==> name in r.rows[k] && r.rows[k][name] == cells[k]
    ensures forall k, c :: 0 <= k < |r.rows| && c in t.rows[k] && c != name ==>
              c in r.rows[k] && r.rows[k][c] == t.rows[k][c]
  {
    var columns := if name in t.columns then t.columns else t.columns + [name];
    assert ColumnSet(columns) == ColumnSet(t.columns) + {name};
    Table(columns, seq(|t.rows|, k requires 0 <= k < |t.rows| => t.rows[k][name := cells[k]]))
  }

  /** A data frame whose columns the nodes overwrite in place. */
  class DataFrame {
    var columns: seq<string>
    var rows: seq<Row>

    function Value(): Table
      reads this
    {
      Table(columns, rows)
    }

    ghost predicate Valid()
      reads this
    {
      WellFormed(Value())
    }

    constructor (t: Table)
      requires WellFormed(t)
      ensures Valid() && Value() == t
    {
      columns, rows := t.columns, t.rows;
    }

    /** `frame[name]`: the column, or a missing-column error when there is none. */
    function Get(name: string): (r: Result<seq<Cell>>)
      reads this
      requires Valid()
      ensures r.Success? <==> name in columns
      ensures r.Failure? ==> r.error == MissingColumn(name)
      ensures r.Success? ==> |r.value| == |rows|
      ensures r.Success? ==> forall k :: 0 <= k < |rows| ==> r.value[k] == rows[k][name]
    {
      if name in columns then Success(ColumnOf(Value(), name)) else Failure(MissingColumn(name))
    }

    /** `frame[name] = cells`. */
    method Set(name: string, cells: seq<Cell>)
      requires Valid() && |cells| == |rows|
      modifies this
      ensures Valid() && Value() == WithColumn(old(Value()), name, cells)
    {
      var t := WithColumn(Value(), name, cells);
      columns, rows := t.columns, t.rows;
    }
  }
}
