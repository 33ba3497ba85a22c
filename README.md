# Incremental planar triangulation builder, modelled in Dafny

This project models the combinatorial core of a small interactive tool. The
tool grows a planar triangulated graph one vertex at a time.

A `Graph` (graph.py) holds four pieces of state:

- a map from vertex id to `Vertex` record;
- a set of undirected edges, each stored as a sorted id pair;
- the periphery, the ordered cyclic list of boundary ids;
- the next free id.

The graph changes in these ways:

- `start_basic_graph` seeds the triangle 1-2-3.
- `add_vertex_to_periphery(vp, vq)` picks the boundary arc from `vp` to `vq`.
  The arc is either a forward slice or a slice that wraps past the end of the
  list. The call creates a vertex with the next id and a cyclic colour number,
  fans an edge from it to every arc id, and rewrites the periphery. The arc's
  interior leaves the boundary, and the new id goes right after `vp`.
- `add_random_vertex` draws the two boundary ids at random.
- `generate_large_graph` repeats `add_random_vertex` up to a target size.

Read-only queries report on the state:

- `validate_graph_structure` reports missing ids and an edge count below the
  triangulated count;
- `get_graph_statistics` reports counts and degree figures;
- a pair of colour operations reads and writes vertex colours against the
  graph's palette.

A `Vertex` (vertex.py) is a mutable record. For integer arguments, the
constructor, `set_color` and `set_custom_color` keep its colour number in
1..4.

## How the model is organised

| file | module | contents |
|---|---|---|
| sequences.dfy | `Sequences` | duplicate-freedom, `list.index` (`IndexOf`), counting lemmas |
| palette.dfy | `Palette` | RGB triples; `MatchNumber`, the reverse lookup from a colour to its palette number |
| vertex.dfy | `Vertices` | class `Vertex` with `const id`, `pos`, `colorNumber`, `color`, `const radius` |
| boundary.dfy | `Boundary` | value-level arc selection, periphery splice and edge fan, with their lemmas |
| counting.dfy | `EdgeCounting` | degree, end points and dangling end points of an edge set; sum of a map |
| issues.dfy | `StructureReport` | the issue list of `validate_graph_structure` as values |
| statistics.dfy | `GraphStatistics` | the degree table, its sum, maximum and minimum |
| graph.dfy | `Graphs` | class `Graph` and the invariants its methods keep |

The graph's invariant is stated twice. `TopologyValid` holds in every
reachable state:

- ids are positive and below the next id;
- edges are sorted pairs of distinct existing ids;
- the periphery is duplicate-free and lists existing ids.

`TopologyTriangulated` holds from `start_basic_graph` on. It adds:

- at least three boundary ids;
- every cyclically consecutive boundary pair is an edge;
- exactly `3 #V - 3 - len(periphery)` edges (#V vertices, #E edges).

Every insertion preserves both predicates. That is why
`validate_graph_structure` reports nothing on any graph built by the tool.

Two colour palettes exist:

- the graph's palette (`Graphs.GraphPalette`, graph.py:14-19): (255,100,100),
  (100,255,100), (100,100,255), (255,255,100);
- the vertex's palette (`Vertices.VertexPalette`, vertex.py:12-17):
  (255,120,120), (120,255,120), (120,120,255), (255,255,120).

`assign_vertex_color` writes a graph-palette colour and leaves the colour
number alone. `get_vertex_color_number` looks colours up in the graph's
palette only. So every vertex still showing a colour from its constructor or
from `set_color` reads back as number 1, whatever its colour number
(`Graphs.VertexColoursReadAsOne`). The model keeps colours as RGB triples.
`StartBasicGraph`, `AddVertexToPeriphery`, `Attach` and `AddRandomVertex`
ensure that each vertex they create shows the vertex-palette colour of its
number. With `GetVertexColorNumber` and that lemma, every such vertex reads
back as 1.

The source's branches are modelled as follows:

- Rejected calls and errors that the source reports with a message become
  result values: `InsertOutcome`, `Issue` and `GenerateOutcome`.
- The unreachable `len(target_arc) < 2` branch (graph.py:68-70) is not
  written as code. `Boundary.Arc` proves the arc has at least two ids.
- `generate_large_graph` computes `batch_size = min(50, target // 20)`, which
  is 0 for 4 <= target < 20. Its first `i % batch_size` then raises
  ZeroDivisionError, with the graph left as the basic triangle. The model
  returns `DivisionByZero` exactly in that case.

## Model

| member | source | states |
|---|---|---|
| `Vertices.ClampColorNumber` | vertex.py:20 | max(1, min(4, c)) lies in 1..4, is c inside that range, 1 below it and 4 above it |
| `Vertices.Vertex.constructor` | vertex.py:5-25 | stores id and position, clamps the colour number into 1..4, takes the vertex palette colour of that number, and derives the radius from the id |
| `Vertices.Vertex.SetColor` | vertex.py:33-39 | succeeds exactly for 1..4 and then sets the number and its palette colour; otherwise neither field changes; the position never changes. Any vertex may be recoloured: a success leaves the number in 1..4 whatever it was, and a number already in 1..4 stays there. The new fields depend on c alone, so a repeated call changes nothing |
| `Vertices.Vertex.SetCustomColor` | vertex.py:41-50 | a 3-tuple becomes the colour, and the number becomes the first palette number showing it, or 1; any other argument changes nothing; a 3-tuple always leaves the number in 1..4, and a number already in 1..4 stays there |
| `Vertices.IsRgbTuple` | vertex.py:43 | no contract of its own: the isinstance-and-length test; SetCustomColor's ensures state what each outcome of it does |
| `Vertices.CustomColorRoundTrip` | vertex.py:12-17 | handing set_custom_color the palette colour of number k selects k again |
| `Vertices.Vertex.GetDisplayInfo` | vertex.py:52-60 | the snapshot carries the current id, position, colour, colour number and radius |
| `Palette.MatchNumber` | vertex.py:46-50 | the result is the first palette number whose colour equals c, or 1 when no entry does |
| `Palette.MatchNumberRoundTrip` | vertex.py:12-17 | with distinct palette entries, looking up entry k gives k |
| `Sequences.IndexOf` | graph.py:60-61 | list.index: a position holding x with no earlier occurrence of x |
| `Sequences.IndexOfDistinct` | graph.py:85 | in a duplicate-free list, list.index inverts indexing |
| `Boundary.SortedPair` | graph.py:81 | tuple(sorted((a, b))) is ordered and holds exactly a and b |
| `Boundary.Arc` | graph.py:63-70 | for distinct positions the arc starts at vp, ends at vq, and has between 2 and len(periphery) ids, so the `len < 2` branch cannot fire; its length is j - i + 1 forward and len(p) - i + j + 1 wrapping |
| `Boundary.ArcDistinct` | graph.py:63-66 | the arc never repeats an id |
| `Boundary.ArcMembers` | graph.py:63-66 | every arc id is a periphery id |
| `Boundary.Interior` | graph.py:83 | target_arc[1:-1] has len(arc) - 2 ids, all from the arc, and the arc is its first id, the interior, then its last id |
| `Boundary.RemoveAll` | graph.py:84 | the filter comprehension is no longer than the periphery and keeps no id of the interior; RemoveAllMembers and KeptShape state exactly what it keeps |
| `Boundary.InsertAfter` | graph.py:85-86 | index then insert adds exactly one occurrence of the new id and keeps every other id with its multiplicity; InsertAfterAt gives its position |
| `Boundary.RemoveAllMembers` | graph.py:84 | the filter comprehension keeps exactly the ids not in the interior |
| `Boundary.KeptShape` | graph.py:83-84 | dropping a forward arc's interior keeps the ids up to vp and from vq on; dropping a wrapping arc's interior keeps the ids from vq to vp |
| `Boundary.InsertAfterAt` | graph.py:85-86 | inserting after the first occurrence of s[k] puts the new id at position k + 1 |
| `Boundary.SpliceIsNewPeriphery` | graph.py:83-87 | the filter-then-insert steps of the source yield exactly the closed-form new periphery, and vp survives the filter |
| `Boundary.NewPeripheryDistinct` | graph.py:83-87 | with a fresh id the rewritten periphery is duplicate-free |
| `Boundary.NewPeripheryMembers` | graph.py:83-87 | the rewritten periphery holds the new id and exactly the old ids not inside the arc |
| `Boundary.NewPeripheryLength` | graph.py:83-87 | the length changes by 1 - (len(arc) - 2) and stays at least 3 |
| `Boundary.NewPeripheryPlacement` | graph.py:85-86 | the new id comes right after vp and, cyclically, right before vq |
| `Boundary.NewPeripheryClosed` | graph.py:80-87 | a boundary closed by edges stays closed once the two new sides (vp, n) and (n, vq) are edges |
| `Boundary.NewPeripheryExamples` | graph.py:83-87 | from [1, 2, 3], (2, 1) takes the arc [2, 3, 1] and gives [1, 2, 4]; (1, 2) takes [1, 2] and gives [1, 4, 2, 3] |
| `Boundary.FanStep` | graph.py:80-81 | fanning to one more arc id adds exactly its sorted pair |
| `Boundary.Fan` | graph.py:80-81 | every arc id is joined to the new id by its sorted pair, and every fan edge has the new id as an end; FanCard gives its size |
| `Boundary.FanCard` | graph.py:80-81 | a fan to k distinct ids has exactly k edges |
| `EdgeCounting.DegreeStep` | graph.py:283-285 | one more edge adds one to the degree of each of its end points |
| `EdgeCounting.DanglingStep` | graph.py:255-259 | one more edge adds one for each of its end points that has no vertex |
| `EdgeCounting.EndpointsHavePositiveDegree` | graph.py:282-285 | the ids in the degree table are exactly those of positive degree |
| `EdgeCounting.SumOfIncrement` | graph.py:284-285 | degrees.get(v, 0) + 1 adds one to the sum of the table |
| `EdgeCounting.SumOf` | graph.py:288 | sum(degrees.values()) is at least every single entry; SumOfRemove lets the sum start from any key |
| `StructureReport.PeripheryIssues` | graph.py:250-252 | one issue per missing periphery id, in periphery order, and none for existing ids |
| `StructureReport.PeripheryIssuesEmpty` | graph.py:250-252 | no periphery issue exactly when every periphery id exists |
| `StructureReport.EdgeEndIssues` | graph.py:256-259 | one issue for each end of one edge that has no vertex |
| `StructureReport.EdgeIssuesStep` | graph.py:255-259 | one more edge keeps each id reported once per edge end it is, when it has no vertex |
| `StructureReport.NoDanglingEnds` | graph.py:255-259 | no edge issue exactly when every end point exists |
| `StructureReport.TriangulationHint` | graph.py:263-266 | the hint appears exactly when #V > 2 and #E < 3#V - 3 - len(periphery), and carries both counts |
| `GraphStatistics.DegreeTable` | graph.py:282-285 | the table has an entry for exactly the end points; each entry is the degree; the entries sum to 2#E |
| `GraphStatistics.DegreeTableStep` | graph.py:283-285 | counting one more edge, v1 then v2, keeps the table exact |
| `GraphStatistics.Bump` | graph.py:284-285 | degrees.get(v, 0) + 1 stored back: v becomes a key with one more than its old count (0 if absent), and every other entry is unchanged |
| `GraphStatistics.EndpointsEmpty` | graph.py:287 | the degree table is empty exactly when there are no edges |
| `GraphStatistics.Summarize` | graph.py:288-290 | the sum is the table's sum, and the maximum and minimum are entries that bound all others |
| `GraphStatistics.DegreeFigures` | graph.py:282-290 | degree figures exist exactly when there are edges, and then satisfy DescribesDegrees: the average is 2#E over the number of end points; the maximum and minimum are degrees of end points that bound all others |
| `Graphs.CycleColorNumber` | graph.py:76 | ((id - 1) % 4) + 1 lies in 1..4 and is congruent to the id modulo 4 |
| `Graphs.Graph.constructor` | graph.py:8-19 | an empty graph whose next id is 1, satisfying the invariant |
| `Graphs.Graph.StartBasicGraph` | graph.py:30-47 | exactly vertices {1, 2, 3} with colour numbers 1, 2, 3 at their positions, each showing the vertex-palette colour of its number with radius LogRadius(id), edges {(1,2), (2,3), (1,3)}, periphery [1, 2, 3] and next id 4, triangulated |
| `Graphs.BasicTriangleTriangulated` | graph.py:37-47 | the basic triangle meets the triangulated-disc invariant |
| `Graphs.Graph.AddVertexToPeriphery` | graph.py:50-90 | equal ids, or an id off the periphery, are rejected with nothing changed. Otherwise exactly one fresh vertex appears, with the old next id, the cyclic colour number, the vertex-palette colour of that number, the radius LogRadius(id) and the given position; the old entries are unchanged. The edges grow by the fan to the arc, and the periphery is the rewritten one. The next id grows by one. Both invariants are kept |
| `Graphs.Graph.Attach` | graph.py:72-89 | the state change of a successful insertion, stated in full: the fresh vertex's id, position, cyclic colour number, its vertex-palette colour and radius, the untouched old entries, the fan and the periphery splice, keeping both invariants |
| `Graphs.AddFan` | graph.py:80-81 | the loop adds exactly the fan from the new id to the arc |
| `Graphs.FanIsFresh` | graph.py:80-81 | every fan edge joins an existing id to the fresh one, is sorted and no self-loop, and none was an edge before |
| `Graphs.FanCount` | graph.py:80-81 | the edge count grows by exactly the arc length |
| `Graphs.InsertKeepsValid` | graph.py:74-89 | an insertion keeps ids fresh and monotone, the edges well-formed and the periphery duplicate-free over existing ids |
| `Graphs.InsertKeepsTriangulated` | graph.py:74-89 | an insertion keeps at least three boundary ids, the boundary closed by edges, and #E = 3#V - 3 - len(periphery) |
| `Graphs.InsertKeepsInvariants` | graph.py:74-89 | the new id is fresh, and both invariants carry over to the state after the insertion |
| `Graphs.SamplePositions` | graph.py:98 | the two drawn positions are distinct and within the periphery |
| `Graphs.SamplePositionsCovers` | graph.py:98 | every ordered pair of distinct positions can be drawn |
| `Graphs.Graph.AddRandomVertex` | graph.py:92-99 | fewer than two periphery ids change nothing; otherwise the drawn pair is inserted as add_vertex_to_periphery does: one fresh vertex with the old next id, its cyclic colour number and vertex-palette colour and radius, the old entries unchanged, the fan to the arc between the drawn positions and the rewritten periphery; both invariants are kept. If every stored vertex had its number in 1..4, or showed its creation colour, that still holds afterwards |
| `Graphs.Graph.AssignVertexColor` | graph.py:229-234 | succeeds exactly for 1..4 and an existing id, and then shows the graph palette colour, which reads back as c; the colour number and position never change, so every number stays in 1..4; a refusal changes nothing |
| `Graphs.GraphPaletteRoundTrip` | graph.py:14-19 | a graph palette colour reads back as its own number |
| `Graphs.VertexColoursReadAsOne` | graph.py:236-243 | every vertex palette colour reads back as 1 through the graph's palette |
| `Graphs.CycleColouredIsValid` | vertex.py:20 | vertices showing their creation colours all have colour numbers in 1..4 |
| `Graphs.RecordsExtend` | graph.py:76-78 | storing a vertex with the cyclic colour number and its vertex-palette colour keeps both the 1..4 property and the creation-colour property of the map |
| `Graphs.BasicTriangleColours` | graph.py:37-39 | the triangle's vertices, numbered 1, 2, 3 with their vertex-palette colours, show their creation colours |
| `Graphs.Graph.GetVertexColorNumber` | graph.py:236-243 | the first graph palette number showing the vertex's colour; 1 for an unknown id or an unmatched colour; always in 1..4 |
| `Graphs.MissingPeripheryIds` | graph.py:250-252 | the first loop yields exactly the periphery issues |
| `Graphs.MissingEdgeEnds` | graph.py:255-259 | the second loop yields one issue per edge end without a vertex, counted per id |
| `Graphs.Graph.ValidateGraphStructure` | graph.py:245-268 | the list is the periphery issues, then the edge issues, then the hint. It is empty exactly when the structure is sound. A valid graph can only get the hint, and a triangulated graph gets no issue |
| `Graphs.ReportEmptyIffSound` | graph.py:245-268 | an issue list is empty exactly when every check passes |
| `Graphs.ReportOfValid` | graph.py:261-266 | over a valid topology only the hint can appear, and over a triangulated one nothing |
| `Graphs.PeripheryFits` | graph.py:276 | a duplicate-free periphery of existing ids is no longer than the vertex map |
| `Graphs.Graph.GetGraphStatistics` | graph.py:270-292 | the counts, interior = #V - len(periphery) (never negative on a valid graph), and the issue count (zero exactly when the structure is sound). Degree figures exist exactly when there are vertices and edges, and satisfy DescribesDegrees. A triangulated graph always has them and reports no issue |
| `Graphs.Graph.GenerateLargeGraph` | graph.py:294-318 | fails exactly for 4 <= target < 20, leaving the basic triangle. Otherwise it ends with max(3, target) vertices, triangulated, with #E = 3#V - 3 - len(periphery). The returned statistics report no issue and carry degree figures that satisfy DescribesDegrees. Either way every vertex has its creation colour number ((id - 1) % 4) + 1, in 1..4, and shows that number's vertex-palette colour |
| `Graphs.Graph.Restart` | graph.py:302 | start_basic_graph as generate_large_graph uses it: the triangle, triangulated, every vertex showing its creation colour |
| `Graphs.Graph.AddVerticesUpTo` | graph.py:307-315 | the loop adds one vertex per i in 4..target, ending with max(3, target) vertices; it keeps the graph triangulated and every vertex showing its creation colour |

## Left out

- `redraw_graph` (graph.py:140-227) is not modelled. It uses trigonometry and
  a floating-point force simulation, and it only reassigns `pos`, which the
  combinatorial model never reads.
- `_calculate_outward_pos` (graph.py:101-138) is not modelled. The position
  of a new vertex is a parameter of the insert methods.
- `get_bounding_box` (graph.py:21-28) is left out. It is a floating-point
  layout helper that does not touch the topology or the colours.
- `optimize_for_large_graphs` (graph.py:320-355) is left out. On graphs with
  at least 1000 vertices it recolours every vertex through `set_color`. It
  picks numbers 1..4 from float distance rings around the centroid of the
  positions. It moves no vertex and does not touch the topology. It does
  overwrite any graph-palette colour left by `assign_vertex_color`. Every
  recoloured vertex then shows a vertex-palette colour, so
  `get_vertex_color_number` reads it back as 1 (`Graphs.VertexColoursReadAsOne`).
- `calculate_radius` (vertex.py:27-31) is left out because it uses a
  logarithm. The radius is kept symbolic as `LogRadius(id)`.
- `random.sample` is not modelled. Its draws are parameters (`first`,
  `second`, and the `RandomPick` sequence of `generate_large_graph`).
- Print side effects are left out. The messages of rejected calls become
  result values, and issue strings become `Issue` values.
- Graphs.Graph.GenerateLargeGraph does not model the progress messages or
  the periodic `redraw_graph` call. They only print and move positions.
- GraphStatistics.DegreeFigures computes the average as an exact real, while
  the source uses a float division.
- Graphs.Graph.AssignVertexColor takes its colour number as an `int`. The
  source's dictionary-key test would also accept `1.0` or `True`.
- Vertices.Vertex.constructor takes the colour number as an `int`. With a
  non-integer such as 2.5 the clamp keeps 2.5 and the palette lookup then
  raises KeyError (vertex.py:20-21); that path is not modelled. The default
  `color_number=1` is not modelled either: callers always pass the number.
- Vertices.Vertex.SetColor takes an `int`. A non-integer in range, such as
  2.5, passes the source's `1 <= color_number <= 4` test, is stored, and then
  raises KeyError on the palette lookup. That path is not modelled.
- Graphs.Graph.GenerateLargeGraph has no default for `target_vertices`
  (1000 in the source); the caller always passes the target.
- Vertices.Vertex.SetCustomColor takes a tuple of ints. It does not model
  tuples of other element types.
- The set and dictionary iteration order of Python is not modelled. The
  edge-issue part of the validation list is stated per id, as counts, not in
  order.
- main.py (the pygame window and its event loop) and renderer.py (drawing)
  are not part of this model.
