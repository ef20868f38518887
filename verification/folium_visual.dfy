/** The map view: loads the coordinate store, attaches coordinates to the data
    table when its header has no coordinate column, and places one marker per
    row whose lower-cased location is a store key. */
module FoliumVisual {
  import opened Seqs
  import opened Results
  import opened Strings
  import opened Table
  import CoordsAssign

  /** Map centre and zoom the constructor uses by default (UCSD). */
  const DefaultCenter: (real, real) := (32.8788, -117.2359)
  const DefaultZoom: int := 14

  datatype Visual = Visual(data: Table, center: (real, real), zoom: int, coords: map<string, string>)

  /** A map marker: the stored coordinate text and the popup label. */
  datatype Marker = Marker(coordinates: string, popup: Cell)

  datatype FoliumMap = FoliumMap(center: (real, real), zoom: int, markers: seq<Marker>)

  /** `__init__`: `data` is the table read from the data file and
      `coordRows` the rows of the coordinate file. Loading the store can fail,
      and so can attaching coordinates to a table without `location`. */
  function NewVisual(data: Table, coordRows: seq<seq<string>>, center: (real, real), zoom: int): (r: Result<Visual>)
    ensures CoordsAssign.Load(coordRows).Failure? ==> r == Failure(CoordsAssign.Load(coordRows).error)
    ensures r.Success? ==> r.value.coords == CoordsAssign.Load(coordRows).value.coords
    ensures r.Success? ==> r.value.center == center && r.value.zoom == zoom
    ensures r.Success? && !NoCoordColumn(data.columns) ==> r.value.data == data
    ensures r.Success? && NoCoordColumn(data.columns) ==>
              CoordsAssign.AttachesCoordinates(CoordsAssign.Load(coordRows).value, data, r.value.data)
    ensures r.Success? ==> !NoCoordColumn(r.value.data.columns)
    ensures r.Failure? <==>
              (CoordsAssign.Load(coordRows).Failure? || (NoCoordColumn(data.columns) && "location" !in data.columns))
  {
    match CoordsAssign.Load(coordRows)
    case Failure(e) => Failure(e)
    case Success(store) =>
      if NoCoordColumn(data.columns) then
        match CoordsAssign.CoordsColumn(store, data)
        case Failure(e) => Failure(e)
        case Success(attached) =>
          CoordinatesColumnDetected(attached.columns);
          Success(Visual(attached, center, zoom, CoordsAssign.GetCoords(store)))
      else Success(Visual(data, center, zoom, CoordsAssign.GetCoords(store)))
  }

  /** `__init__` with its default centre and zoom. */
  function NewVisualWithDefaults(data: Table, coordRows: seq<seq<string>>): (r: Result<Visual>)
    ensures r.Success? <==> NewVisual(data, coordRows, DefaultCenter, DefaultZoom).Success?
    ensures r.Success? ==> r.value.center == (32.8788, -117.2359) && r.value.zoom == 14
  {
    NewVisual(data, coordRows, DefaultCenter, DefaultZoom)
  }

  /** The key `create_map` looks a row up under, if the row has a text location. */
  predicate Selected(coords: map<string, string>, row: Row) {
    "location" in row && row["location"].Text? && Lower(row["location"].text) in coords
  }

  /** One loop iteration of `create_map`: `row['location']` raises KeyError
      when the column is absent and `.lower()` fails on a missing cell; a
      lower-cased location that is not a key adds nothing; otherwise
      `row['name']` (KeyError when absent) becomes the popup. */
  function MarkerFor(coords: map<string, string>, row: Row): (r: Result<Option<Marker>>)
    ensures r.Failure? <==>
              ("location" !in row || row["location"].Missing? || (Selected(coords, row) && "name" !in row))
    ensures r.Success? && r.value.Some? <==> Selected(coords, row) && "name" in row
    ensures r.Success? && r.value.Some? ==>
              r.value.value == Marker(coords[Lower(row["location"].text)], row["name"])
  {
    if "location" !in row then Failure(MissingColumn("location"))
    else match row["location"]
      case Missing => Failure(NotAString("location"))
      case Text(loc) =>
        var key := Lower(loc);
        if key !in coords then Success(None)
        else if "name" !in row then Failure(MissingColumn("name"))
        else Success(Some(Marker(coords[key], row["name"])))
  }

  /** The markers of `rows`, in row order; the first failing row stops the loop. */
  function Markers(coords: map<string, string>, rows: seq<Row>): (r: Result<seq<Marker>>)
    ensures r.Success? <==> forall i :: 0 <= i < |rows| ==> MarkerFor(coords, rows[i]).Success?
    ensures r.Failure? ==> exists i :: 0 <= i < |rows| && FirstFailure(coords, rows, i)
                                       && r.error == MarkerFor(coords, rows[i]).error
    ensures r.Success? ==> |r.value| <= |rows|
  {
    if |rows| == 0 then Success([])
    else
      match MarkerFor(coords, rows[0])
      case Failure(e) =>
        assert FirstFailure(coords, rows, 0);
        Failure(e)
      case Success(m) =>
        match Markers(coords, rows[1..])
        case Failure(e) =>
          ghost var i :| 0 <= i < |rows| - 1 && FirstFailure(coords, rows[1..], i)
                        && e == MarkerFor(coords, rows[1..][i]).error;
          assert FirstFailure(coords, rows, i + 1);
          Failure(e)
        case Success(ms) =>
          assert forall i :: 0 < i < |rows| ==> rows[i] == rows[1..][i - 1];
          Success(if m.Some? then [m.value] + ms else ms)
  }

  /** Row `i` is the first row on which the loop fails. */
  predicate FirstFailure(coords: map<string, string>, rows: seq<Row>, i: int) {
    && 0 <= i < |rows|
    && MarkerFor(coords, rows[i]).Failure?
    && forall j :: 0 <= j < i ==> MarkerFor(coords, rows[j]).Success?
  }

  /** `create_map`: the map centred as configured, carrying the markers. */
  function CreateMap(v: Visual): (r: Result<FoliumMap>)
    ensures r.Success? ==> r.value.center == v.center && r.value.zoom == v.zoom
    ensures r.Success? <==> Markers(v.coords, v.data.rows).Success?
    ensures r.Success? ==> |r.value.markers| <= |v.data.rows|
  {
    match Markers(v.coords, v.data.rows)
    case Failure(e) => Failure(e)
    case Success(ms) => Success(FoliumMap(v.center, v.zoom, ms))
  }

  /** The marker a selected row produces. */
  function MarkerOf(coords: map<string, string>, row: Row): Marker
    requires Selected(coords, row)
  {
    Marker(coords[Lower(row["location"].text)], Field(row, "name"))
  }

  function SelectedBy(coords: map<string, string>): Row -> bool {
    row => Selected(coords, row)
  }

  /** On success the markers are exactly those of the selected rows, one each,
      in row order. */
  lemma {:induction false} MarkersAreSelectedRows(coords: map<string, string>, rows: seq<Row>)
    requires Markers(coords, rows).Success?
    ensures var ms, picked := Markers(coords, rows).value, Filter(rows, SelectedBy(coords));
            && |ms| == |picked|
            && forall j :: 0 <= j < |ms| ==> Selected(coords, picked[j]) && ms[j] == MarkerOf(coords, picked[j])
  {
    if |rows| > 0 {
      assert rows == [rows[0]] + rows[1..];
      assert forall i :: 0 < i < |rows| ==> rows[i] == rows[1..][i - 1];
      MarkersAreSelectedRows(coords, rows[1..]);
    }
  }

  /** Locations that differ only in letter case resolve to the same store
      entry, so they give the same marker coordinates. */
  lemma CaseVariantsShareEntry(coords: map<string, string>, a: Row, b: Row)
    requires "location" in a && a["location"].Text? && "location" in b && b["location"].Text?
    requires CaseVariants(a["location"].text, b["location"].text)
    ensures Selected(coords, a) <==> Selected(coords, b)
    ensures Selected(coords, a) ==> MarkerOf(coords, a).coordinates == MarkerOf(coords, b).coordinates
  {
    LowerIdentifiesCaseVariants(a["location"].text, b["location"].text);
  }

  /** A row at "La Jolla" and a row at "la jolla" are both selected by a
      "la jolla" entry and get its coordinates. */
  lemma LaJollaMatchesIgnoringCase(coords: map<string, string>, a: Row, b: Row)
    requires "la jolla" in coords
    requires "location" in a && a["location"] == Text("La Jolla")
    requires "location" in b && b["location"] == Text("la jolla")
    ensures Selected(coords, a) && Selected(coords, b)
    ensures MarkerOf(coords, a).coordinates == MarkerOf(coords, b).coordinates == coords["la jolla"]
  {
    assert CaseVariants("La Jolla", "la jolla") by {
      forall i | 0 <= i < 8
        ensures SameIgnoringCase("La Jolla"[i], "la jolla"[i])
      {
      }
    }
    CaseVariantsShareEntry(coords, a, b);
    assert Lower("la jolla") == "la jolla";
  }

  /** On success, `create_map` places exactly one marker per selected row, in
      row order, each carrying the stored coordinates and the row's name. */
  lemma CreateMapMarksSelectedRows(v: Visual)
    requires CreateMap(v).Success?
    ensures var ms, picked := CreateMap(v).value.markers, Filter(v.data.rows, SelectedBy(v.coords));
            && |ms| == |picked|
            && IsSubsequence(picked, v.data.rows)
            && forall j :: 0 <= j < |ms| ==> Selected(v.coords, picked[j]) && ms[j] == MarkerOf(v.coords, picked[j])
  {
    MarkersAreSelectedRows(v.coords, v.data.rows);
    FilterIsSubsequence(v.data.rows, SelectedBy(v.coords));
  }

  /** A row whose location is not in the store adds no marker and raises nothing. */
  lemma UnknownLocationSkipped(coords: map<string, string>, row: Row)
    requires "location" in row && row["location"].Text? && Lower(row["location"].text) !in coords
    ensures MarkerFor(coords, row) == Success(None)
  {
  }
}
