/** A data frame as the Python code reads it from a CSV file: an ordered list
    of column names and a list of rows, each row mapping column names to cells. */
module Table {
  import opened Seqs
  import opened Strings

  /** A cell holds text, or is missing (pandas' NaN). */
  datatype Cell = Text(text: string) | Missing

  type Row = map<string, Cell>

  datatype Table = Table(columns: seq<string>, rows: seq<Row>)

  /** The shape every data frame has: distinct column names, and every row
      holding exactly those columns. */
  ghost predicate WellFormed(t: Table) {
    Distinct(t.columns) && forall r :: r in t.rows ==> r.Keys == set c | c in t.columns
  }

  /** The cell of `row` under `column`, missing when the row lacks it. */
  function Field(row: Row, column: string): Cell {
    if column in row then row[column] else Missing
  }

  /** `df.assign(name=...)`: sets column `name` of every row to `value(row)`,
      appending the column when it is new and keeping its place otherwise. */
  function Assign(t: Table, name: string, value: Row -> Cell): (r: Table)
    ensures |r.rows| == |t.rows|
    ensures t.columns <= r.columns && name in r.columns
    ensures |r.columns| == |t.columns| + (if name in t.columns then 0 else 1)
    ensures forall i :: 0 <= i < |t.rows| ==>
              r.rows[i].Keys == t.rows[i].Keys + {name} && r.rows[i][name] == value(t.rows[i])
    ensures forall i, c :: 0 <= i < |t.rows| && c in t.rows[i] && c != name ==>
              r.rows[i][c] == t.rows[i][c]
    ensures WellFormed(t) ==> WellFormed(r)
  {
    var columns := if name in t.columns then t.columns else t.columns + [name];
    assert (set c | c in columns) == (set c | c in t.columns) + {name};
    Table(columns, seq(|t.rows|, i requires 0 <= i < |t.rows| => t.rows[i][name := value(t.rows[i])]))
  }

  /** The test `'coord' not in '\t'.join(columns)` both the clustering step
      and the map view use to decide whether coordinates must be attached. */
  predicate NoCoordColumn(columns: seq<string>) {
    !Contains(Join(columns, '\t'), "coord")
  }

  /** Searching the tab-joined header is the same as searching each column
      name, because "coord" contains no tab. */
  lemma NoCoordColumnPerColumn(columns: seq<string>)
    ensures NoCoordColumn(columns) <==> forall k :: 0 <= k < |columns| ==> !Contains(columns[k], "coord")
  {
    ContainsInJoin(columns, '\t', "coord");
  }

  /** A table with a `coordinates` column never triggers attachment. */
  lemma CoordinatesColumnDetected(columns: seq<string>)
    requires "coordinates" in columns
    ensures !NoCoordColumn(columns)
  {
    NoCoordColumnPerColumn(columns);
    var k :| 0 <= k < |columns| && columns[k] == "coordinates";
    assert OccursAt(columns[k], "coord", 0);
  }
}
