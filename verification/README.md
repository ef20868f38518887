# rides_cluster in Dafny

A model of the logic in the rides_cluster repository: a coordinate store that
maps location names to coordinate text and round-trips through a two-column
CSV file (`CoordsAssign`), the rider eligibility filter of the clustering step
(`Cluster`), and the map view's coordinate-column test and marker selection
(`FoliumVisual`). CSV files are modelled as their rows (`seq<seq<string>>`),
data frames as a column list plus rows mapping column names to cells, where a
cell is text or missing (pandas' NaN). Every operation is a pure function.
The exceptions the modelled code raises on malformed rows, absent columns and
missing cells (ValueError, KeyError, AttributeError) become a `Failure` of
`Results.Result`; the exceptions of `eval` and folium on bad coordinate text
are not modelled (see "## Left out").

Modules:

- `Results` (results.dfy): `Error`, `Option`, `Result`.
- `Seqs` (seqs.dfy): order-preserving `Filter`, `Distinct`, `IsSubsequence` and their lemmas.
- `Strings` (strings.dfy): ASCII `Lower`, `Join` with a one-character separator, substring `Contains`.
- `Table` (table.dfy): cells, rows, tables, pandas' `assign`, and the `'coord'` header test shared by the clustering step and the map view.
- `CoordsAssign` (coords_assign.dfy): the store. `Store.order` records the dictionary's insertion order, which `push_csv` writes rows in.
- `Cluster` (cluster.dfy): construction and `preliminary_cluster`.
- `FoliumVisual` (folium_visual.dfy): construction and `create_map`.

Facts about the code the model follows:

- The docstring of `preliminary_cluster` (cluster.py:15-20) promises a DataFrame with assigned clusters, but the code assigns no cluster identifiers and returns nothing. The model returns the filtered table and stops there.
- The `Cluster` constructor calls `self.coords_column`, which `Cluster` does not have (cluster.py:12). So when the header has no coordinate column, construction fails (`MissingAttribute("coords_column")`).
- `update_coords` stores coordinate text without checking it; only `create_map` parses it, with `eval` (folium_visual.py:72). The model keeps it as opaque text.
- `coords_column` looks locations up exactly, with case. `create_map` lower-cases the location first. Only `create_map` ignores case.

## Model

| member | source | states |
|---|---|---|
| CoordsAssign.Load | coords_assign.py:38-42 | loading succeeds iff every row has exactly two fields; otherwise the error names the first bad row; a loaded store is valid (distinct insertion order covering exactly the keys) |
| CoordsAssign.LoadKeys | coords_assign.py:40-42 | after a successful load, a name is a key iff some row has it as first field |
| CoordsAssign.LoadLastRowWins | coords_assign.py:40-42 | after a successful load, each key holds the second field of the last row carrying that key |
| CoordsAssign.UpdateCoords | coords_assign.py:44-52 | the location maps to the new value, every other key keeps its presence and value, validity is kept, existing insertion order is a prefix of the new one and grows only for a new key |
| CoordsAssign.UpdateCoordsIdempotent | coords_assign.py:52 | updating twice with the same arguments equals updating once |
| CoordsAssign.GetCoords | coords_assign.py:64-71 | the returned dictionary's keys are exactly the store's keys, each with the store's coordinates |
| CoordsAssign.PushCsv | coords_assign.py:73-79 | exactly one two-field row per store entry, the row pairing the key with its value, with no key repeated |
| CoordsAssign.LoadPushCsv | coords_assign.py:38-79 | loading the rows `push_csv` writes reproduces the same store, order included |
| CoordsAssign.UpdatePushLoad | coords_assign.py:44-79 | update, push, then load yields the new value at the location and the old values elsewhere |
| CoordsAssign.CoordsColumn | coords_assign.py:54-62 | fails iff the table has no `location` column; otherwise same row count, every other field kept, a `coordinates` column added, holding text iff the row's exact location is a key, and then that key's value |
| CoordsAssign.CoordsColumnIdempotent | coords_assign.py:62 | attaching coordinates to an already attached table changes nothing |
| CoordsAssign.CoordsColumnIsCaseSensitive | coords_assign.py:62 | the lookup is exact: "La Jolla" misses an entry stored as "la jolla" |
| Table.Assign | coords_assign.py:62 | `assign` keeps the row count and every other field, sets the named column in each row, appends the column only when new, and keeps tables well formed |
| Strings.ContainsInJoin | folium_visual.py:54 | a needle with no separator in it occurs in the joined header iff it occurs in some column name |
| Table.NoCoordColumnPerColumn | folium_visual.py:54 | the tab-joined test triggers iff no column name contains `coord` |
| Table.CoordinatesColumnDetected | folium_visual.py:53-56 | a header with a `coordinates` column never triggers attachment |
| Strings.LowerIdentifiesCaseVariants | folium_visual.py:68 | two strings lower-case to the same string iff they agree position by position up to ASCII letter case |
| Cluster.NewCluster | cluster.py:6-12 | fails iff the header has no coordinate column; otherwise same rows with every other field kept and `cluster` missing in each |
| Cluster.ClusterColumnIsNotCoord | cluster.py:8-10 | adding the `cluster` column does not change the outcome of the coordinate test |
| Cluster.PreliminaryCluster | cluster.py:14-25 | fails iff there is no `location` column; otherwise keeps the columns, and a row is kept iff it is a rider row whose location occurs at least 4 times |
| Cluster.PreliminaryClusterKeepsOrder | cluster.py:24-25 | the kept rows are a subsequence of the riders, with every copy of an eligible row kept and none of any other |
| Cluster.FilterCounts | cluster.py:21-25 | after filtering, a location's count is its original count when that is at least 4, and 0 otherwise |
| Cluster.PreliminaryClusterMinimum | cluster.py:21-25 | every kept row has a text location occurring at least 4 times in the result |
| Cluster.PreliminaryClusterIdempotent | cluster.py:21-25 | filtering the filtered table again returns it unchanged |
| Cluster.PreliminaryClusterNoneEligible | cluster.py:22-25 | when no location reaches 4 riders the result is an empty table, not an error |
| Cluster.PreliminaryClusterAssignsNoCluster | cluster.py:8-25 | every kept row still has a missing `cluster` |
| FoliumVisual.NewVisual | folium_visual.py:45-56 | the configured centre and zoom are kept; a failed store load fails construction; coordinates are attached iff the header has no coordinate column, and then attachment fails iff `location` is absent; afterwards the header always has a coordinate column |
| FoliumVisual.NewVisualWithDefaults | folium_visual.py:35 | construction with the default arguments centres the map at (32.8788, -117.2359) with zoom 14 |
| FoliumVisual.MarkerFor | folium_visual.py:67-73 | a row fails iff it lacks `location`, has a missing location, or matches but lacks `name`; it yields a marker iff its lower-cased location is a key and it has `name`, with that key's value and the name as popup |
| FoliumVisual.Markers | folium_visual.py:67-74 | succeeds iff every row does; on failure the error is the first failing row's; never more markers than rows |
| FoliumVisual.CreateMap | folium_visual.py:58-74 | the map has the configured centre and zoom, succeeds iff the marker loop does, and has at most one marker per row |
| FoliumVisual.MarkersAreSelectedRows | folium_visual.py:67-73 | the markers are exactly one per selected row, in row order, each with the stored value and the row's name |
| FoliumVisual.CreateMapMarksSelectedRows | folium_visual.py:58-74 | a successful map carries exactly one marker per selected row, the selected rows a subsequence of the data rows, each marker with the stored value and the row's name |
| FoliumVisual.CaseVariantsShareEntry | folium_visual.py:68-72 | rows whose locations differ only in letter case are selected together and get the same coordinates |
| FoliumVisual.LaJollaMatchesIgnoringCase | folium_visual.py:68-72 | with a "la jolla" entry, rows at "La Jolla" and at "la jolla" are both selected and get that entry's coordinates |
| FoliumVisual.UnknownLocationSkipped | folium_visual.py:70-71 | a row whose lower-cased location is not a key yields no marker and no error |

## Left out

- CSV reading and writing (`csv.reader`, `csv.writer` quoting, `pd.read_csv`, `open`): files are their rows. The round trip is stated on rows, not on CSV text.
- pandas type inference: every cell is text or missing. A numeric location cell is read as text.
- `eval` of the stored coordinate text in `create_map`: coordinates stay opaque strings in the marker.
- FoliumVisual.MarkerFor: does not model the exceptions `eval` raises on bad coordinate text (SyntaxError for `""`, NameError for `"abc"`) or `folium.Marker`'s rejection of a value that is not a latitude/longitude pair; a selected row with such text yields a marker in the model, so its failure condition covers only the `location`/`name` lookups and the missing-location case.
- folium's `Map`, `Marker.add_to` and `save_map`: a map is its centre, zoom and marker list. The tooltip (`location_name.title()`) is not modelled.
- Unicode casing: `Lower` folds only ASCII letters `A`-`Z`, where Python's `str.lower` follows Unicode.
- `print` diagnostics, the hard-coded default file paths, and the aliasing of the dictionary `get_coords` returns.
- Frame properties: `coords_column` and `create_map` do not change the store, and `preliminary_cluster` does not change the riders table. Every value here is immutable, so these hold by construction and no lemma states them.
- Cluster identifier assignment: the source does not implement it.
