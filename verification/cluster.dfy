/** The clustering step: attaches an empty `cluster` column to the riders
    table and keeps the riders whose location is shared by enough riders. */
module Cluster {
  import opened Seqs
  import opened Results
  import opened Table
  import opened Strings

  /** A location needs at least this many riders to seed a cluster. */
  const MinRiders := 4

  datatype Cluster = Cluster(riders: Table)

  /** `__init__`: adds a `cluster` column of missing values, then tests the
      header for a coordinate column. When none is found it calls
      `self.coords_column`, which `Cluster` does not define, so construction
      fails. */
  function NewCluster(riders: Table): (r: Result<Cluster>)
    ensures r.Failure? <==> NoCoordColumn(riders.columns)
    ensures r.Failure? ==> r.error == MissingAttribute("coords_column")
    ensures r.Success? ==>
              && |r.value.riders.rows| == |riders.rows|
              && (forall row :: row in r.value.riders.rows ==> "cluster" in row && row["cluster"] == Missing)
              && (forall i, c :: 0 <= i < |riders.rows| && c in riders.rows[i] && c != "cluster" ==>
                    c in r.value.riders.rows[i] && r.value.riders.rows[i][c] == riders.rows[i][c])
  {
    var withCluster := Assign(riders, "cluster", _ => Missing);
    ClusterColumnIsNotCoord(riders.columns);
    if NoCoordColumn(withCluster.columns) then Failure(MissingAttribute("coords_column"))
    else Success(Cluster(withCluster))
  }

  /** Adding the `cluster` column never changes the outcome of the coordinate test. */
  lemma ClusterColumnIsNotCoord(columns: seq<string>)
    ensures NoCoordColumn(if "cluster" in columns then columns else columns + ["cluster"])
        <==> NoCoordColumn(columns)
  {
    var extended := columns + ["cluster"];
    NoCoordColumnPerColumn(columns);
    NoCoordColumnPerColumn(extended);
    assert !Contains("cluster", "coord") by {
      forall i | 0 <= i <= 2
        ensures !OccursAt("cluster", "coord", i)
      {
        assert "cluster"[i + 1] != "coord"[1];
      }
    }
    assert forall k :: 0 <= k < |columns| ==> extended[k] == columns[k];
  }

  function LocationOf(row: Row): Cell {
    Field(row, "location")
  }

  /** Rows recorded at location `loc`. */
  function AtLocation(loc: string): Row -> bool {
    row => LocationOf(row) == Text(loc)
  }

  /** The entry `value_counts()` reports for `loc`. */
  function Count(rows: seq<Row>, loc: string): nat {
    |Filter(rows, AtLocation(loc))|
  }

  /** `isin(eligible locations)`: a row is kept when its location occurs at
      least `MinRiders` times among `rows`; a missing location never is. */
  function EligibleIn(rows: seq<Row>): Row -> bool {
    row => LocationOf(row).Text? && Count(rows, LocationOf(row).text) >= MinRiders
  }

  /** `preliminary_cluster`: the copy of the riders restricted to eligible
      locations; a table without `location` raises KeyError. The source stops
      here, so the filtered table is the result and no cluster is assigned. */
  function PreliminaryCluster(c: Cluster): (r: Result<Table>)
    ensures r.Failure? <==> "location" !in c.riders.columns
    ensures r.Failure? ==> r.error == MissingColumn("location")
    ensures r.Success? ==>
              && r.value.columns == c.riders.columns
              && forall row :: row in r.value.rows <==> row in c.riders.rows && EligibleIn(c.riders.rows)(row)
  {
    if "location" !in c.riders.columns then Failure(MissingColumn("location"))
    else Success(Table(c.riders.columns, Filter(c.riders.rows, EligibleIn(c.riders.rows))))
  }

  /** The kept rows are a subsequence of the riders, with every copy of an
      eligible row kept and every other row dropped. */
  lemma PreliminaryClusterKeepsOrder(c: Cluster)
    requires "location" in c.riders.columns
    ensures IsSubsequence(PreliminaryCluster(c).value.rows, c.riders.rows)
    ensures forall row :: multiset(PreliminaryCluster(c).value.rows)[row]
                       == if EligibleIn(c.riders.rows)(row) then multiset(c.riders.rows)[row] else 0
  {
    FilterIsSubsequence(c.riders.rows, EligibleIn(c.riders.rows));
    forall row {
      FilterMultiplicity(c.riders.rows, EligibleIn(c.riders.rows), row);
    }
  }

  /** An eligible location keeps all its riders; any other location loses them all. */
  lemma FilterCounts(rows: seq<Row>, loc: string)
    ensures Count(Filter(rows, EligibleIn(rows)), loc)
         == if Count(rows, loc) >= MinRiders then Count(rows, loc) else 0
  {
    var here, keep := AtLocation(loc), EligibleIn(rows);
    FilterCommutes(rows, keep, here);
    var atLoc := Filter(rows, here);
    if Count(rows, loc) >= MinRiders {
      FilterAll(atLoc, keep);
    } else {
      FilterNone(atLoc, keep);
    }
  }

  /** Every location left after filtering still has at least `MinRiders` riders. */
  lemma PreliminaryClusterMinimum(c: Cluster, row: Row)
    requires "location" in c.riders.columns
    requires row in PreliminaryCluster(c).value.rows
    ensures LocationOf(row).Text?
    ensures Count(PreliminaryCluster(c).value.rows, LocationOf(row).text) >= MinRiders
  {
    FilterCounts(c.riders.rows, LocationOf(row).text);
  }

  /** Filtering the filtered table again returns it unchanged. */
  lemma PreliminaryClusterIdempotent(c: Cluster)
    requires "location" in c.riders.columns
    ensures PreliminaryCluster(Cluster(PreliminaryCluster(c).value)) == PreliminaryCluster(c)
  {
    var kept := PreliminaryCluster(c).value;
    forall row | row in kept.rows
      ensures EligibleIn(kept.rows)(row)
    {
      PreliminaryClusterMinimum(c, row);
    }
    FilterAll(kept.rows, EligibleIn(kept.rows));
  }

  /** When no location reaches the threshold the result is empty, not an error. */
  lemma PreliminaryClusterNoneEligible(c: Cluster)
    requires "location" in c.riders.columns
    requires forall loc :: Count(c.riders.rows, loc) < MinRiders
    ensures PreliminaryCluster(c) == Success(Table(c.riders.columns, []))
  {
    FilterNone(c.riders.rows, EligibleIn(c.riders.rows));
  }

  /** Riders start with no cluster, and the filter assigns none. */
  lemma PreliminaryClusterAssignsNoCluster(riders: Table)
    requires NewCluster(riders).Success?
    requires "location" in NewCluster(riders).value.riders.columns
    ensures forall row :: row in PreliminaryCluster(NewCluster(riders).value).value.rows ==>
              "cluster" in row && row["cluster"] == Missing
  {
  }
}
