/**
 * The data frame the dashboard loads: its column labels and its rows, the
 * lookups `df[name]` that raise `KeyError`, and the in-place updates the
 * script makes to it.
 */
module Frames {
  import opened Wrappers
  import opened Text
  import opened Cells

  type Row = seq<Cell>

  /** A frame as a value: column labels, and one row of cells per record. */
  datatype Frame = Frame(columns: seq<string>, rows: seq<Row>)

  /** Every row has one cell per column. */
  predicate WellFormed(f: Frame)
  {
    forall i :: 0 <= i < |f.rows| ==> |f.rows[i]| == |f.columns|
  }

  /** The ways the script stops with an exception. */
  datatype Error =
    | MissingColumns(cause: Option<string>, municipality: Option<string>, month: Option<string>, year: Option<string>)
    | KeyError(column: Option<string>)
    | ValueError(text: string)

  datatype Result<+T> = Ok(value: T) | Err(error: Error) {
    predicate IsFailure() { Err? }

    function PropagateFailure<U>(): Result<U>
      requires Err?
    {
      Err(error)
    }

    function Extract(): T
      requires Ok?
    {
      value
    }
  }

  /** Position of the first column labelled `name`. */
  function IndexOf(names: seq<string>, name: string): (r: Option<nat>)
    ensures r.None? <==> name !in names
    ensures r.Some? ==> r.value < |names| && names[r.value] == name && name !in names[..r.value]
  {
    if names == [] then None
    else if names[0] == name then Some(0)
    else
      match IndexOf(names[1..], name)
      case None => None
      case Some(k) =>
        assert names[1..][..k] == names[1..k + 1];
        Some(k + 1)
  }

  /** `df[name]`: the position of the column, or `KeyError(name)`. */
  function Lookup(f: Frame, name: Option<string>): (r: Result<nat>)
    ensures r.Ok? <==> name.Some? && name.value in f.columns
    ensures r.Ok? ==> r.value < |f.columns| && Some(r.value) == IndexOf(f.columns, name.value)
    ensures r.Err? ==> r.error == KeyError(name)
  {
    if name.None? then Err(KeyError(name))
    else
      match IndexOf(f.columns, name.value)
      case None => Err(KeyError(name))
      case Some(k) => Ok(k)
  }

  /** `names[j]` is the first of `names` that the frame has no column for. */
  predicate FirstMissing(f: Frame, names: seq<Option<string>>, j: int)
  {
    && 0 <= j < |names|
    && Lookup(f, names[j]).Err?
    && forall i :: 0 <= i < j ==> Lookup(f, names[i]).Ok?
  }

  /** The key columns of `df.groupby([...])`: the first absent one raises. */
  function LookupAll(f: Frame, names: seq<Option<string>>): (r: Result<seq<nat>>)
    ensures r.Ok? <==> forall j :: 0 <= j < |names| ==> names[j].Some? && names[j].value in f.columns
    ensures r.Ok? ==> |r.value| == |names|
    ensures r.Ok? ==> forall j :: 0 <= j < |names| ==> r.value[j] < |f.columns| && Some(r.value[j]) == IndexOf(f.columns, names[j].value)
    ensures r.Err? ==> exists j :: FirstMissing(f, names, j) && r.error == KeyError(names[j])
  {
    if names == [] then Ok([])
    else
      match Lookup(f, names[0])
      case Err(e) =>
        assert FirstMissing(f, names, 0);
        Err(e)
      case Ok(first) =>
        match LookupAll(f, names[1..])
        case Err(e) =>
          var j :| FirstMissing(f, names[1..], j) && e == KeyError(names[1..][j]);
          assert FirstMissing(f, names, j + 1);
          Err(e)
        case Ok(rest) =>
          assert forall j :: 1 <= j < |names| ==> names[j] == names[1..][j - 1];
          Ok([first] + rest)
  }

  /** The column at position `j`, as the `Series` `df[name]`. */
  function ColumnCells(f: Frame, j: nat): (cells: seq<Cell>)
    requires WellFormed(f) && j < |f.columns|
    ensures |cells| == |f.rows|
    ensures forall i :: 0 <= i < |f.rows| ==> cells[i] == f.rows[i][j]
  {
    seq(|f.rows|, i requires 0 <= i < |f.rows| => f.rows[i][j])
  }

  /**
   * The frame after `df[name] = values`: the column `name` holds `values`
   * (it is appended when the frame has no such column), every other column
   * keeps its label, position and cells.
   */
  function WithColumn(f: Frame, name: string, values: seq<Cell>): (g: Frame)
    requires WellFormed(f) && |values| == |f.rows|
    ensures WellFormed(g) && |g.rows| == |f.rows|
    ensures |g.columns| == |f.columns| + (if name in f.columns then 0 else 1)
    ensures forall j :: 0 <= j < |f.columns| ==> g.columns[j] == f.columns[j]
    ensures IndexOf(g.columns, name).Some?
    ensures forall i :: 0 <= i < |g.rows| ==> g.rows[i][IndexOf(g.columns, name).value] == values[i]
    ensures forall i, j :: 0 <= i < |g.rows| && 0 <= j < |f.columns| && f.columns[j] != name ==> g.rows[i][j] == f.rows[i][j]
  {
    match IndexOf(f.columns, name)
    case Some(k) => ReplaceColumn(f, k, values)
    case None => AppendColumn(f, name, values)
  }

  /** `df[name] = values` for a column already at position `k`. */
  function ReplaceColumn(f: Frame, k: nat, values: seq<Cell>): (g: Frame)
    requires WellFormed(f) && |values| == |f.rows| && k < |f.columns|
    ensures WellFormed(g) && g.columns == f.columns && |g.rows| == |f.rows|
    ensures forall i :: 0 <= i < |g.rows| ==> g.rows[i][k] == values[i]
    ensures forall i, j :: 0 <= i < |g.rows| && 0 <= j < |f.columns| && j != k ==> g.rows[i][j] == f.rows[i][j]
  {
    Frame(f.columns, seq(|f.rows|, i requires 0 <= i < |f.rows| => f.rows[i][k := values[i]]))
  }

  /** `df[name] = values` for a new column: it goes last. */
  function AppendColumn(f: Frame, name: string, values: seq<Cell>): (g: Frame)
    requires WellFormed(f) && |values| == |f.rows| && name !in f.columns
    ensures WellFormed(g) && g.columns == f.columns + [name] && |g.rows| == |f.rows|
    ensures IndexOf(g.columns, name) == Some(|f.columns|)
    ensures forall i :: 0 <= i < |g.rows| ==> g.rows[i][|f.columns|] == values[i]
    ensures forall i, j :: 0 <= i < |g.rows| && 0 <= j < |f.columns| ==> g.rows[i][j] == f.rows[i][j]
  {
    var g := Frame(f.columns + [name], seq(|f.rows|, i requires 0 <= i < |f.rows| => f.rows[i] + [values[i]]));
    assert g.columns[..|f.columns|] == f.columns;
    g
  }

  /** Adding a column keeps the position of every column already there. */
  lemma WithColumnKeepsIndex(f: Frame, name: string, values: seq<Cell>, other: string)
    requires WellFormed(f) && |values| == |f.rows|
    requires other in f.columns
    ensures IndexOf(WithColumn(f, name, values).columns, other) == IndexOf(f.columns, other)
  {
    var g := WithColumn(f, name, values);
    var k := IndexOf(f.columns, other).value;
    assert g.columns[..k] == f.columns[..k];
  }

  /** `df.columns.str.upper().str.strip()`. */
  function NormalizeAll(columns: seq<string>): (r: seq<string>)
    ensures |r| == |columns|
    ensures forall j :: 0 <= j < |r| ==> r[j] == NormalizeName(columns[j])
  {
    seq(|columns|, j requires 0 <= j < |columns| => NormalizeName(columns[j]))
  }

  /** The data frame `df` of the script, which it updates in place. */
  class DataFrame {
    var columns: seq<string>
    var rows: seq<Row>

    ghost predicate Valid()
      reads this
    {
      WellFormed(Frame(columns, rows))
    }

    /** The current contents as a value. */
    function Value(): Frame
      reads this
    {
      Frame(columns, rows)
    }

    /** The frame as loaded from the sheet. */
    constructor (columns: seq<string>, rows: seq<Row>)
      requires WellFormed(Frame(columns, rows))
      ensures Valid() && Value() == Frame(columns, rows)
    {
      this.columns := columns;
      this.rows := rows;
    }

    /** `df.columns = df.columns.str.upper().str.strip()`: relabels, no cell changes. */
    method NormalizeColumns()
      requires Valid()
      modifies this
      ensures Valid()
      ensures columns == NormalizeAll(old(columns)) && rows == old(rows)
    {
      columns := NormalizeAll(columns);
    }

    /** `df[name] = values`, row by row. */
    method SetColumn(name: string, values: seq<Cell>)
      requires Valid() && |values| == |rows|
      modifies this
      ensures Valid()
      ensures Value() == WithColumn(old(Value()), name, values)
    {
      var target := IndexOf(columns, name);
      var updated: seq<Row> := [];
      var i := 0;
      while i < |rows|
        invariant 0 <= i <= |rows|
        invariant |updated| == i
        invariant forall k :: 0 <= k < i ==> updated[k] == (if target.Some? then rows[k][target.value := values[k]] else rows[k] + [values[k]])
      {
        var row := rows[i];
        if target.Some? {
          row := row[target.value := values[i]];
        } else {
          row := row + [values[i]];
        }
        updated := updated + [row];
        i := i + 1;
      }
      if target.None? {
        columns := columns + [name];
      }
      rows := updated;
    }
  }
}
