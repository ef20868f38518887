/** The coordinate store: a dictionary from location name to coordinate text,
    loaded from and written back to a two-column CSV file. */
module CoordsAssign {
  import opened Seqs
  import opened Results
  import opened Table

  /** The dictionary `self.coords`. `order` is its insertion order, which a
      Python dict keeps and `push_csv` writes rows in. */
  datatype Store = Store(order: seq<string>, coords: map<string, string>)

  ghost predicate Valid(s: Store) {
    Distinct(s.order) && forall k :: k in s.coords <==> k in s.order
  }

  /** `self.coords = {}` */
  const Empty := Store([], map[])

  /** `update_coords`: inserts or overwrites the entry for `location`. A new key
      goes to the end of the insertion order; an existing key keeps its place. */
  function UpdateCoords(s: Store, location: string, value: string): (r: Store)
    ensures Valid(s) ==> Valid(r)
    ensures location in r.coords && r.coords[location] == value
    ensures forall k :: k != location ==> (k in r.coords <==> k in s.coords)
    ensures forall k :: k != location && k in s.coords ==> r.coords[k] == s.coords[k]
    ensures s.order <= r.order
    ensures |r.order| == |s.order| + (if location in s.coords then 0 else 1)
  {
    Store(if location in s.coords then s.order else s.order + [location], s.coords[location := value])
  }

  lemma UpdateCoordsIdempotent(s: Store, location: string, value: string)
    ensures UpdateCoords(UpdateCoords(s, location, value), location, value) == UpdateCoords(s, location, value)
  {
  }

  /** Every row of the coordinate file has exactly two fields. */
  predicate AllPairs(rows: seq<seq<string>>) {
    forall i :: 0 <= i < |rows| ==> |rows[i]| == 2
  }

  /** `e` reports the first row that does not have two fields. */
  predicate FirstMalformed(rows: seq<seq<string>>, e: Error) {
    && e.MalformedRow?
    && e.index < |rows|
    && |rows[e.index]| != 2
    && forall j :: 0 <= j < e.index ==> |rows[j]| == 2
  }

  /** `__init__`: reads the rows in order into an empty dictionary, a later row
      overwriting an earlier one with the same key; `k, v = row` fails on the
      first row that does not have two fields, and then no store exists. */
  function Load(rows: seq<seq<string>>): (r: Result<Store>)
    ensures r.Success? <==> AllPairs(rows)
    ensures r.Success? ==> Valid(r.value)
    ensures r.Failure? ==> FirstMalformed(rows, r.error)
  {
    if |rows| == 0 then Success(Empty)
    else
      var last := rows[|rows| - 1];
      AllButLastRow(rows);
      match Load(rows[..|rows| - 1])
      case Failure(e) => Failure(e)
      case Success(s) =>
        if |last| != 2 then Failure(MalformedRow(|rows| - 1))
        else Success(UpdateCoords(s, last[0], last[1]))
  }

  /** How the row checks of a list relate to those of all but its last row. */
  lemma AllButLastRow(rows: seq<seq<string>>)
    requires |rows| > 0
    ensures AllPairs(rows) <==> AllPairs(rows[..|rows| - 1]) && |rows[|rows| - 1]| == 2
    ensures forall e :: FirstMalformed(rows[..|rows| - 1], e) ==> FirstMalformed(rows, e)
    ensures AllPairs(rows[..|rows| - 1]) && |rows[|rows| - 1]| != 2 ==>
              FirstMalformed(rows, MalformedRow(|rows| - 1))
  {
    var prefix := rows[..|rows| - 1];
    assert forall j :: 0 <= j < |prefix| ==> prefix[j] == rows[j];
  }

  /** Some row carries key `k` in its first field. */
  predicate HasKeyRow(rows: seq<seq<string>>, k: string) {
    exists i :: 0 <= i < |rows| && |rows[i]| > 0 && rows[i][0] == k
  }

  /** Whether a list of rows carries key `k`, in terms of all but its last row. */
  lemma HasKeyRowLast(rows: seq<seq<string>>, k: string)
    requires |rows| > 0 && |rows[|rows| - 1]| > 0
    ensures HasKeyRow(rows, k) <==> HasKeyRow(rows[..|rows| - 1], k) || rows[|rows| - 1][0] == k
  {
    var prefix := rows[..|rows| - 1];
    if HasKeyRow(rows, k) && rows[|rows| - 1][0] != k {
      var i :| 0 <= i < |rows| && |rows[i]| > 0 && rows[i][0] == k;
      assert prefix[i] == rows[i];
    }
    if HasKeyRow(prefix, k) {
      var i :| 0 <= i < |prefix| && |prefix[i]| > 0 && prefix[i][0] == k;
      assert prefix[i] == rows[i];
    }
  }

  /** After a successful load the keys are exactly the first fields. */
  lemma {:induction false} LoadKeys(rows: seq<seq<string>>, k: string)
    requires AllPairs(rows)
    ensures k in Load(rows).value.coords <==> HasKeyRow(rows, k)
  {
    if |rows| > 0 {
      var n := |rows| - 1;
      AllButLastRow(rows);
      LoadKeys(rows[..n], k);
      LoadLast(rows);
      HasKeyRowLast(rows, k);
    }
  }

  /** Row `i` is `[k, v]` and no later row carries key `k`. */
  predicate IsLastRowFor(rows: seq<seq<string>>, k: string, v: string, i: int) {
    && 0 <= i < |rows|
    && rows[i] == [k, v]
    && forall j :: i < j < |rows| ==> |rows[j]| == 0 || rows[j][0] != k
  }

  /** The last row for `k` in all but the last row stays the last one when the
      final row carries another key. */
  lemma IsLastRowForLast(rows: seq<seq<string>>, k: string, v: string, i: int)
    requires |rows| > 0 && |rows[|rows| - 1]| > 0 && rows[|rows| - 1][0] != k
    requires IsLastRowFor(rows[..|rows| - 1], k, v, i)
    ensures IsLastRowFor(rows, k, v, i)
  {
    var prefix := rows[..|rows| - 1];
    assert rows[i] == prefix[i];
    forall j | i < j < |rows|
      ensures |rows[j]| == 0 || rows[j][0] != k
    {
      if j < |prefix| {
        assert rows[j] == prefix[j];
        assert |prefix[j]| == 0 || prefix[j][0] != k;
      }
    }
  }

  /** The final row's key takes the final row's value. */
  lemma LoadFinalRow(rows: seq<seq<string>>)
    requires AllPairs(rows) && |rows| > 0
    ensures var n := |rows| - 1; var k := rows[n][0];
            k in Load(rows).value.coords && IsLastRowFor(rows, k, Load(rows).value.coords[k], n)
  {
    var n := |rows| - 1;
    AllButLastRow(rows);
    LoadLast(rows);
    assert rows[n] == [rows[n][0], rows[n][1]];
  }

  /** After a successful load each key holds the second field of the last row
      that carries it. */
  lemma {:induction false} LoadLastRowWins(rows: seq<seq<string>>, k: string)
    requires AllPairs(rows) && k in Load(rows).value.coords
    ensures exists i :: IsLastRowFor(rows, k, Load(rows).value.coords[k], i)
  {
    assert |rows| > 0 by {
      assert Load([]).value.coords == map[];
    }
    var n := |rows| - 1;
    if rows[n][0] == k {
      LoadFinalRow(rows);
    } else {
      AllButLastRow(rows);
      LoadLast(rows);
      var s := Load(rows[..n]).value;
      LoadLastRowWins(rows[..n], k);
      var i :| IsLastRowFor(rows[..n], k, s.coords[k], i);
      IsLastRowForLast(rows, k, s.coords[k], i);
    }
  }

  /** `get_coords`: the dictionary itself. */
  function GetCoords(s: Store): (m: map<string, string>)
    requires Valid(s)
    ensures forall k :: k in m <==> k in s.order
    ensures forall k :: k in m ==> k in s.coords && m[k] == s.coords[k]
  {
    s.coords
  }

  /** `push_csv`, at the level of rows: one `[key, value]` row per entry, in
      insertion order. */
  function PushCsv(s: Store): (rows: seq<seq<string>>)
    requires Valid(s)
    ensures AllPairs(rows)
    ensures |rows| == |s.order| == |s.coords|
    ensures forall i :: 0 <= i < |rows| ==> rows[i][0] in s.coords && rows[i][1] == s.coords[rows[i][0]]
    ensures forall k :: k in s.coords ==> exists i :: 0 <= i < |rows| && rows[i][0] == k
    ensures forall i, j :: 0 <= i < j < |rows| ==> rows[i][0] != rows[j][0]
  {
    StoreSize(s);
    var rows := Entries(s);
    assert forall i :: 0 <= i < |rows| ==> rows[i][0] == s.order[i];
    rows
  }

  /** A valid store has one key per position of its insertion order. */
  lemma StoreSize(s: Store)
    requires Valid(s)
    ensures |s.coords| == |s.order|
  {
    DistinctCardinality(s.order);
    assert s.coords.Keys == set k | k in s.order;
  }

  /** The `[key, value]` pairs of `s` in insertion order. */
  function Entries(s: Store): seq<seq<string>>
    requires Valid(s)
  {
    seq(|s.order|, i requires 0 <= i < |s.order| => [s.order[i], s.coords[s.order[i]]])
  }

  /** The store holding the first `n` keys of `s` in insertion order. */
  function Prefix(s: Store, n: nat): Store
    requires n <= |s.order|
  {
    Store(s.order[..n], map k | k in s.order[..n] && k in s.coords :: s.coords[k])
  }

  /** Loading a non-empty list of rows loads all but the last, then applies the last. */
  lemma LoadLast(rows: seq<seq<string>>)
    requires |rows| > 0 && Load(rows[..|rows| - 1]).Success? && |rows[|rows| - 1]| == 2
    ensures Load(rows) == Success(UpdateCoords(Load(rows[..|rows| - 1]).value, rows[|rows| - 1][0], rows[|rows| - 1][1]))
  {
  }

  lemma {:induction false} LoadPushCsvPrefix(s: Store, n: nat)
    requires Valid(s) && n <= |s.order|
    ensures Load(Entries(s)[..n]) == Success(Prefix(s, n))
  {
    if n > 0 {
      var all := Entries(s);
      LoadPushCsvPrefix(s, n - 1);
      var key := s.order[n - 1];
      assert all[..n][..n - 1] == all[..n - 1];
      LoadLast(all[..n]);
      PrefixExcludesNext(s, n);
      PrefixStep(s, n);
    }
  }

  lemma PrefixExcludesNext(s: Store, n: nat)
    requires Valid(s) && 0 < n <= |s.order|
    ensures s.order[n - 1] !in Prefix(s, n - 1).coords
  {
  }

  lemma PrefixStep(s: Store, n: nat)
    requires Valid(s) && 0 < n <= |s.order|
    requires s.order[n - 1] !in Prefix(s, n - 1).coords
    ensures UpdateCoords(Prefix(s, n - 1), s.order[n - 1], s.coords[s.order[n - 1]]) == Prefix(s, n)
  {
    var key := s.order[n - 1];
    var a, b := UpdateCoords(Prefix(s, n - 1), key, s.coords[key]), Prefix(s, n);
    assert s.order[..n] == s.order[..n - 1] + [key];
    assert a.order == b.order;
    forall k | k in b.coords
      ensures k in a.coords && a.coords[k] == b.coords[k]
    {
      if k != key {
        assert k in s.order[..n - 1];
      }
    }
    assert a.coords == b.coords;
  }

  /** Writing the store out and loading the rows back reproduces it exactly. */
  lemma LoadPushCsv(s: Store)
    requires Valid(s)
    ensures Load(PushCsv(s)) == Success(s)
  {
    LoadPushCsvPrefix(s, |s.order|);
    assert PushCsv(s) == Entries(s) == Entries(s)[..|s.order|];
    PrefixWhole(s);
  }

  lemma PrefixWhole(s: Store)
    requires Valid(s)
    ensures Prefix(s, |s.order|) == s
  {
  }

  /** `update_coords(l, c)`, then `push_csv`, then a fresh load finds `c` at `l`
      and every other entry as it was. */
  lemma UpdatePushLoad(s: Store, location: string, value: string)
    requires Valid(s)
    ensures Load(PushCsv(UpdateCoords(s, location, value))).Success?
    ensures var t := Load(PushCsv(UpdateCoords(s, location, value))).value;
            location in t.coords && t.coords[location] == value
            && forall k :: k != location && k in s.coords ==> k in t.coords && t.coords[k] == s.coords[k]
  {
    LoadPushCsv(UpdateCoords(s, location, value));
  }

  /** `df['location'].map(self.coords)` on one cell: exact, case-sensitive
      lookup; a missing cell or an unknown key gives a missing cell. */
  function Lookup(s: Store, location: Cell): Cell {
    match location
    case Text(k) => if k in s.coords then Text(s.coords[k]) else Missing
    case Missing => Missing
  }

  /** The value `coords_column` computes for one row. */
  function CoordinatesOf(s: Store): Row -> Cell {
    row => Lookup(s, Field(row, "location"))
  }

  /** `coords_column`: the table with a `coordinates` column holding each
      row's looked-up coordinates; a table without `location` raises KeyError. */
  function CoordsColumn(s: Store, t: Table): (r: Result<Table>)
    ensures r.Failure? <==> "location" !in t.columns
    ensures r.Failure? ==> r.error == MissingColumn("location")
    ensures r.Success? ==> AttachesCoordinates(s, t, r.value)
  {
    if "location" !in t.columns then Failure(MissingColumn("location"))
    else Success(Assign(t, "coordinates", CoordinatesOf(s)))
  }

  /** What `coords_column` promises of its result `r`: same rows with every
      other field intact, plus the exact-key lookup of each row's location. */
  ghost predicate AttachesCoordinates(s: Store, t: Table, r: Table) {
    && t.columns <= r.columns
    && "coordinates" in r.columns
    && |r.rows| == |t.rows|
    && (WellFormed(t) ==> WellFormed(r))
    && forall i :: 0 <= i < |t.rows| ==>
         var loc, out := Field(t.rows[i], "location"), r.rows[i];
         && out.Keys == t.rows[i].Keys + {"coordinates"}
         && (forall c :: c in t.rows[i] && c != "coordinates" ==> out[c] == t.rows[i][c])
         && (out["coordinates"].Text? <==> loc.Text? && loc.text in s.coords)
         && (out["coordinates"].Text? ==> out["coordinates"].text == s.coords[loc.text])
  }

  /** Attaching twice gives the same table as attaching once. */
  lemma CoordsColumnIdempotent(s: Store, t: Table)
    requires CoordsColumn(s, t).Success?
    ensures CoordsColumn(s, CoordsColumn(s, t).value) == CoordsColumn(s, t)
  {
    var once := CoordsColumn(s, t).value;
    var twice := CoordsColumn(s, once).value;
    assert twice.columns == once.columns;
    forall i | 0 <= i < |once.rows|
      ensures twice.rows[i] == once.rows[i]
    {
      assert Field(once.rows[i], "location") == Field(t.rows[i], "location");
      assert twice.rows[i]["coordinates"] == CoordinatesOf(s)(once.rows[i]) == CoordinatesOf(s)(t.rows[i]);
      assert twice.rows[i].Keys == once.rows[i].Keys;
    }
    assert twice.rows == once.rows;
  }

  /** The lookup is case-sensitive: "La Jolla" does not find a "la jolla" entry. */
  lemma CoordsColumnIsCaseSensitive(s: Store)
    requires "la jolla" in s.coords && "La Jolla" !in s.coords
    ensures Lookup(s, Text("La Jolla")) == Missing
    ensures Lookup(s, Text("la jolla")) == Text(s.coords["la jolla"])
  {
  }
}
