/**
 * The pandas DataFrame that app.py reads from the uploaded workbook and changes in place:
 * an ordered list of named columns of equal length. Only the column kind that matters to
 * the corrections is kept: whether pandas stores the column with dtype `object` (text).
 */
module DataFrame {

  /** One cell: a string, some other value (a number, a date, ...), or NaN. */
  datatype Cell = Text(s: string) | Scalar(code: int) | Missing

  /** A named column; `isText` is true for the columns `select_dtypes(include=[object])` returns. */
  datatype Column = Column(name: string, isText: bool, cells: seq<Cell>)

  /** Every column holds exactly `rows` cells. */
  predicate Rectangular(columns: seq<Column>, rows: nat)
  {
    forall i :: 0 <= i < |columns| ==> |columns[i].cells| == rows
  }

  /** No two columns share a label. */
  predicate DistinctNames(columns: seq<Column>)
  {
    forall i, j :: 0 <= i < j < |columns| ==> columns[i].name != columns[j].name
  }

  /** Same column names, kinds and order, and the same number of cells in each column. */
  predicate SameShape(a: seq<Column>, b: seq<Column>)
  {
    |a| == |b|
    && forall i :: 0 <= i < |a| ==>
         a[i].name == b[i].name && a[i].isText == b[i].isText && |a[i].cells| == |b[i].cells|
  }

  /** A table whose columns are reassigned in place, as `data[col] = ...` does. */
  class Table {
    var columns: seq<Column>
    const rows: nat

    ghost predicate Valid()
      reads this
    {
      Rectangular(columns, rows) && DistinctNames(columns)
    }

    constructor (columns: seq<Column>, rows: nat)
      requires Rectangular(columns, rows) && DistinctNames(columns)
      ensures Valid() && this.columns == columns && this.rows == rows
    {
      this.columns := columns;
      this.rows := rows;
    }

    /** Assigning new cells to an existing column label: the column at i is replaced, everything else stays. */
    method SetColumn(i: nat, col: Column)
      requires Valid() && i < |columns|
      requires col.name == columns[i].name && |col.cells| == rows
      modifies this
      ensures Valid() && columns == old(columns)[i := col]
    {
      columns := columns[i := col];
    }
  }
}
