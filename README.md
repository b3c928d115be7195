# StreetCrowd Planner core in Dafny

This project models the planning core of the StreetCrowd carsharing planner.
The user marks "hot zones" for parked cars. The planner then works out the
order in which one person can walk to each car and drive it to one of its
zones.

The model covers four parts:

- **Route-order optimiser (app.js).** The model covers:
  - whether a car is worth planning for;
  - which car the person walks to first;
  - the car order, put first;
  - the exact search over visited-car sets (memoised) for up to eight cars;
  - the greedy nearest-next order used above eight cars;
  - the plan totals;
  - the rule for when a transit leg replaces a walking leg;
  - the bracket scanner that finds the car feed inside a JavaScript file;
  - the state edits made by hiding a car, clicking the map and refreshing the car list.
- **Transit search (gtfs.js).** The model covers:
  - loading the graph into an adjacency list;
  - choosing the nearest stops;
  - an array-backed binary min-heap;
  - a multi-source Dijkstra with lazy deletion that stops at the first end stop popped;
  - rebuilding the stop chain from the predecessor arrays;
  - the line list and the grouping of edges into legs by line;
  - the straight-line geometry.
- **Graph builder (build_gtfs_graph_zip.py).** The model covers stop indexing and the per-trip state machine over `stop_times` rows. A row whose sequence number is not larger than the last one restarts the trip. Each (from, to) pair keeps its minimum integer weight.
- **Graph builder with line names (build_gtfs_graph_zip_lines.py).** The model covers:
  - route labels and the line name of each trip;
  - the edge loop, which links two rows only when the second's sequence number is exactly one more than the first's;
  - the line sets merged at equal weight (within 1e-6);
  - trimming each edge's lines to the eight smallest;
  - the two-pass file-name lookup.

Modules follow the source. Common holds the shared helpers: Option, the string order, sorted sets and the prefix of a list. Then:

| module | models |
|---|---|
| PlannerState | the `state` object of app.js, as the class `Planner` |
| PlanDetails | pickNearestCar, the car list, buildPlanDetails, routeLeg, clampNumber, coordToLatLng |
| RouteOrder | solve and its first-step loop, as the class `Solver` that holds the memo; greedyPlan; the choice between the two |
| JsLiteral | extractFirstJsLiteral |
| TransitHeap | the heap inside `GTFS.plan`, as the class `MinHeap` |
| TransitSearch | Dijkstra on arrays, chain rebuilding, lines, legs and geometry |
| TransitGraph | the `GTFS` object, as the class `Gtfs` |
| GraphRows | the row types and the stop index shared by both builders, `str.strip` and `str.lower` |
| GraphBuild / GraphBuildLines | the two builders |

Values that come from outside become parameters:

- OSRM duration tables, as `Option` entries where a duration is null;
- haversine distances, as given non-negative distances or a `geo` function;
- the fetched car feed, after normalizeCar;
- graph.json, as `Option<GraphFile>`;
- the rows of the GTFS CSV files;
- the names in the ZIP archive.

Costs and weights are `real`. Infinity is `None`.

## Model

| member | source | states |
|---|---|---|
| PlannerState.Planner.GetCandidateCars | app.js:936-945 | the result is exactly the cars, in their original order, that have at least one zone and are not hidden |
| PlannerState.CandidatesExactly | app.js:936-945 | a car is a candidate iff it is a listed car with a non-empty zone list that is not hidden; candidates keep the car list's order |
| PlannerState.Planner.HideCar | app.js:826-830 | the car becomes hidden, is deselected and loses its zones; the active car is cleared only if it was this car; nothing else changes |
| PlannerState.HideCarCandidates | app.js:826-830 | after hiding, the car is no longer a candidate, and every other candidate still is one |
| PlannerState.Planner.OnMapClick | app.js:765-780 | no active car: nothing changes; an active car unknown to the index: it is cleared; otherwise one zone is appended to its list and it becomes selected |
| PlannerState.AddedZoneMakesCandidate | app.js:775-778 | a visible car that has just been given a zone is a candidate |
| PlannerState.Planner.RefreshCars | app.js:427-459 | the new car list is the normalised feed inside the service area; every old id missing from it loses its zones, selection and hidden flag; the index maps each id to its car |
| PlannerState.KeepCars | app.js:427-434 | the filter loop keeps exactly the normalised cars inside the bounding box 47.2-47.8 / 18.7-19.6 |
| PlannerState.Kept | app.js:427-434 | a car is kept iff it is a normalised feed entry inside the service area |
| PlannerState.ById | app.js:459 | the car index has a key exactly for each car id, and maps it to a car with that id |
| PlanDetails.PickNearestCar | app.js:978-998 | with some known duration, the result is the first car with the strictly least duration, and null entries are skipped; otherwise it is the first car at the least straight-line distance |
| PlanDetails.FirstCheapestUnique | app.js:984-988 | the strict `<` makes the choice unique: ties go to the earliest car |
| PlanDetails.FirstNearestUnique | app.js:992-996 | the haversine fallback's choice is unique, with ties going to the earliest car |
| PlanDetails.CarList | app.js:1002 | the car list starts with the start car, holds it once, and holds every other car |
| PlanDetails.CarListOrder | app.js:1002 | the other cars keep their order; if the start car appears once, the list is a permutation of the cars |
| PlanDetails.WithoutCounts | app.js:1002 | the filter removes every copy of the start car and keeps every other car as often as it appears |
| PlanDetails.WalkOrigins | app.js:1202-1206 | for a valid path, coordinate 0 of the first step is the start, and each later step's walk starts at the previous step's zone |
| PlanDetails.ClampNumber | app.js:247 | the result lies in [a, b] when a <= b; a value already inside is unchanged; below a gives a; above b gives b |
| PlanDetails.ClampIdempotent | app.js:247 | clamping twice equals clamping once |
| PlanDetails.RouteLeg | app.js:1333-1376 | the transit leg is chosen iff it is a walk leg, transit is on, and the transit total is non-zero and below 0.90 × the 5 km/h estimate; otherwise the result is the OSRM leg, or None when OSRM fails |
| PlanDetails.NoTransitMeansOsrm | app.js:1337-1376 | drive legs, or transit switched off, always give the OSRM leg's duration |
| PlanDetails.BuildPlanDetails | app.js:1279-1331 | there is a plan iff every leg has a route; steps are numbered 1..k in order; each zone number is `Number` of the second '#' field of the zone id; total = walk + drive; carsUsed lists the step car ids in first-occurrence order without duplicates |
| PlanDetails.ZoneNoPlainId | app.js:1308 | for a car id without '#', the zone number is the zone's 1-based position in the car's list |
| PlanDetails.ZoneNoHashedId | app.js:1308 | a '#' in the car id shifts the field: car "a#5" numbers its first zone 5, "a#b" gives NaN, "a#" gives 1 |
| PlanDetails.Dedup | app.js:1322 | the result has no duplicates and the same members |
| PlanDetails.DedupFirstOccurrenceOrder | app.js:1322 | the result lists the ids in the order of their first occurrence |
| PlanDetails.CarsUsedOfPath | app.js:1322 | for a valid path (each car at most once), carsUsed is the step car ids unchanged |
| RouteOrder.Solver.Solve | app.js:1109-1164 | the result equals the recursive optimum for (mask, last); the memo then holds it, and every memo entry stays correct, so memoisation is transparent |
| RouteOrder.Solver.PlanExact | app.js:1166-1195 | the first-step loop's result on the memoised solver equals its specification |
| RouteOrder.FullMaskIsFree | app.js:1112-1116 | a full mask costs 0 with an empty path |
| RouteOrder.BestSound | app.js:1115-1164 | a finite result is a valid path from (mask, last) that costs exactly the reported total |
| RouteOrder.BestIsOptimal | app.js:1115-1164 | no valid path from (mask, last) costs less than the result |
| RouteOrder.ValidPathVisitsEachOnce | app.js:1122-1156 | a complete path services every car outside the mask exactly once |
| RouteOrder.ValidPrefixChains | app.js:1122-1156 | each step uses a zone of its own car, and its walk starts at the previous step's zone coordinate |
| RouteOrder.FirstStepSound | app.js:1166-1195 | the exact plan is sound, and its first step services car 0 |
| RouteOrder.FirstStepOptimal | app.js:1166-1195 | no valid complete path beginning at car 0 costs less than the exact plan |
| RouteOrder.NextPickIsFirstCheapest | app.js:1254-1264 | a greedy round picks a (car, zone) pair of a car not yet done with the least cost; ties go to the first pair scanned |
| RouteOrder.GreedyServices | app.js:1253-1270 | the greedy order services each car at most once, in at most n steps; it stops only when every car with a zone is done |
| RouteOrder.GreedyComplete | app.js:1253-1270 | when every car has a zone, the greedy order is a complete path that starts at car 0 |
| RouteOrder.ExactNoWorseThanGreedy | app.js:1093-1195 | the exact plan never costs more than the greedy order (with unknown drives as Infinity) |
| RouteOrder.NullDriveCountsAsZero | app.js:1259-1262 | as written, a zone with a null driving duration is preferred to a reachable one; the corrected cost avoids it |
| RouteOrder.GreedyPlan | app.js:1216-1272 | None iff car 0 has no zone; otherwise the greedy order |
| RouteOrder.NextPickLoop | app.js:1254-1264 | the nested scan loop computes one greedy round |
| RouteOrder.SolveOrder | app.js:1093-1199 | above eight cars the greedy order under the given cost rule (AsWritten is the order app.js:1096 produces, with a null drive counting as 0); otherwise the exact optimum, as a valid path costing the optimum; None when there is no finite plan |
| JsLiteral.ExtractFirstJsLiteral | app.js:327-356 | the scanner loop computes Extract; text without `[` or `{` gives null |
| JsLiteral.FirstOpener | app.js:328-329 | the scan starts at the first `[` or `{` |
| JsLiteral.ExtractShape | app.js:327-356 | a result is a substring of the text |
| JsLiteral.ScanFromShape | app.js:335-355 | a result is the slice of the text from the scan's start to a closing bracket |
| JsLiteral.ExtractFirstBalance | app.js:327-356 | the result is text[st..e] exactly when e is the first index after the first opener st at which the depth (openers minus closers outside single-quoted, double-quoted and backtick strings, with backslash escapes) returns to 0; it is null exactly when the depth never returns to 0 |
| JsLiteral.QuotedTextIgnored | app.js:338-344 | brackets inside a quoted string do not affect the scan |
| JsLiteral.EscapedCharIgnored | app.js:339-340 | a backslash inside a string makes the next character inert |
| TransitHeap.MinHeap.Push | gtfs.js:98 | the heap stays ordered and gains exactly the item |
| TransitHeap.MinHeap.Pop | gtfs.js:99-105 | an empty heap gives null and is unchanged; otherwise the result is an item with the least key, and the heap keeps the rest and stays ordered |
| TransitHeap.MinHeap.SiftUp | gtfs.js:106-113 | restores heap order, keeping the same items |
| TransitHeap.MinHeap.SiftDown | gtfs.js:114-124 | restores heap order, keeping the same items |
| TransitHeap.RootIsMin | gtfs.js:97-124 | in an ordered heap the root has the least key |
| TransitSearch.Seed | gtfs.js:126-129 | every start stop gets a distance, which is the walk cost `d / 1.25` of one of its entries, and is in the heap with it; no other stop has a distance |
| TransitSearch.Relax | gtfs.js:138-147 | a distance only falls, and only when `d + w` beats it; prev and prevEdge change in the same step; the predecessor links stay consistent |
| TransitSearch.Visit | gtfs.js:135-147 | a stale entry is skipped; a settled stop's out-edges are relaxed, keeping the search invariant |
| TransitSearch.Search | gtfs.js:126-150 | returns the first end stop popped, or none; the distances and predecessor links are consistent and acyclic; if none is found, no end stop is reachable from a start |
| TransitSearch.BuildChain | gtfs.js:158-168 | the chain ends at bestEnd and starts at a stop without a predecessor; it has one more stop than edges; each edge leads into the next stop |
| TransitSearch.ChainCost | gtfs.js:153-168 | the chain is a route in the graph, starting at a start stop; bestEnd's distance is that stop's walk cost plus the chain's edge weights |
| TransitSearch.CollectLines | gtfs.js:172-177 | the collected names are the non-empty labels of the edges, in order |
| TransitSearch.UniqLines | gtfs.js:178 | the line list is sorted, has no duplicates, and holds exactly the non-empty labels |
| TransitSearch.FirstLine | gtfs.js:184-187 | a leg's line is a non-empty label of the edge that is no larger than any other, or null when there is none |
| TransitSearch.GroupLegs | gtfs.js:180-200 | the legs are the maximal runs of equal line labels |
| TransitSearch.LegsCoverChain | gtfs.js:180-200 | the legs' stop counts add up to the number of edges, and spell out the edge labels in order |
| TransitSearch.LegsMaximal | gtfs.js:190-197 | adjacent legs have different lines, and every leg has at least one stop |
| TransitSearch.ClosestEntry | gtfs.js:153-154 | the closest end entry whose stop is bestEnd, or null when there is none |
| TransitSearch.Geometry | gtfs.js:202-214 | chain length + 2 points: from, then the chain stops in order, then to |
| TransitGraph.FirstBad | gtfs.js:46-50 | the first numeric edge whose `from` is out of range, where init throws |
| TransitGraph.EdgesFromExactly | gtfs.js:46-50 | `adj[i]` holds exactly the edges whose from, to and w are numbers and whose from is i |
| TransitGraph.EdgesFromInOrder | gtfs.js:46-50 | `adj[i]` keeps the input order |
| TransitGraph.AdjacencyWeights | gtfs.js:46-50 | non-negative input weights give non-negative adjacency weights |
| TransitGraph.BuildAdjacency | gtfs.js:45-50 | the loop builds the adjacency of the input, or stops at the first out-of-range edge |
| TransitGraph.Gtfs.Init | gtfs.js:35-57 | no file: nothing changes; otherwise the stops and edges are stored; the result is true iff no numeric edge has an out-of-range from; on success the graph is ready with that adjacency |
| TransitGraph.Gtfs.NearestStops | gtfs.js:62-72 | not ready: []; otherwise the k nearest stops within maxM, by distance, ties by index |
| TransitGraph.NearestStopsAreNearest | gtfs.js:62-72 | at most k entries, each within maxM, sorted by (d, i); a stop within maxM is left out only when k nearer entries are kept |
| TransitGraph.SortByDistSorted | gtfs.js:70 | the stable sort of entries in index order orders them by distance, then index |
| TransitGraph.Gtfs.Plan | gtfs.js:76-228 | not ready, or no start or end stop: null; no end stop reached: null; otherwise total = dist[bestEnd] + walk to the destination along a graph route from a start stop, with geometry, stops, lines and legs as in gtfs.js |
| TransitGraph.Compose | gtfs.js:152-228 | total = dist[bestEnd] + the walk from the closest end entry of bestEnd; totalDistance is null; the geometry has stops + 2 points from `from` to `to`; lines are sorted and distinct; the answer is a graph route from a start stop to bestEnd, described as in gtfs.js |
| GraphRows.Strip | build_gtfs_graph_zip.py:58 | `str.strip`: the slice of s from its first non-space character that neither starts nor ends with whitespace, with only whitespace after it; "" iff s is all whitespace |
| GraphRows.KeptStopsExactly | build_gtfs_graph_zip.py:49-60 | the stops list holds exactly the rows with an id and both coordinates, and each entry has an id |
| GraphRows.IndexStops | build_gtfs_graph_zip.py:47-60 | stops are the good rows in order; the index has exactly their ids, and each id maps to the last stop with that id |
| GraphRows.LastOfTrip | build_gtfs_graph_zip.py:76-110 | the trip's last valid row before row j, or none |
| GraphRows.TripStep | build_gtfs_graph_zip_lines.py:113-148 | every valid row sets its trip's last (seq, stop), including rows that create no edge; invalid rows change nothing |
| GraphBuild.Weight | build_gtfs_graph_zip.py:104 | `int(dist/6 + 20)` is the floor of the exact weight and at least 20 |
| GraphBuild.Candidate | build_gtfs_graph_zip.py:85-104 | the first valid row of a trip, or one whose sequence is not larger, emits nothing; a larger sequence emits prev stop → stop with weight at least 20 |
| GraphBuild.MachineStep | build_gtfs_graph_zip.py:85-104 | the loop's `last_by_trip` test computes exactly the row's candidate edge |
| GraphBuild.EdgeMapOffer | build_gtfs_graph_zip.py:106-108 | an edge replaces the stored one only when its weight is smaller; the map keeps the least weight per pair |
| GraphBuild.BuildEdges | build_gtfs_graph_zip.py:70-115 | each (from, to) pair appears once; every edge is a candidate of some row; every candidate is covered by its pair's edge with weight no larger |
| GraphBuild.FindName | build_gtfs_graph_zip.py:35-39 | the first name whose lower-cased form ends with the suffix, or None iff there is none |
| GraphBuild.BuildGraph | build_gtfs_graph_zip.py:47-115 | stops as indexed; the edges are the JSON form of the minimal edges (each pair once, at its least candidate weight) over that stop index; every edge has numeric from, to and w and route "BKV"; the graph loads in gtfs.js, with no out-of-range from and non-negative weights |
| GraphBuildLines.RouteLabel | build_gtfs_graph_zip_lines.py:87-89 | `short or long or rid`, with the names stripped |
| GraphBuildLines.RouteLabels | build_gtfs_graph_zip_lines.py:83-89 | the routes loop builds the label map |
| GraphBuildLines.RouteLabelMapLast | build_gtfs_graph_zip_lines.py:83-89 | a non-empty route id has a label iff some row names it, and the last such row's label wins |
| GraphBuildLines.TripRoutes | build_gtfs_graph_zip_lines.py:92-96 | the trips loop builds the trip → route map |
| GraphBuildLines.TripRouteMapLast | build_gtfs_graph_zip_lines.py:92-96 | a trip has a route iff some row with both ids names it; the last such row wins, and the route is non-empty |
| GraphBuildLines.LineForTrip | build_gtfs_graph_zip_lines.py:98-101 | never empty and never padded; the trip's stripped label when known and non-blank, otherwise "BKV" |
| GraphBuildLines.OfferAt | build_gtfs_graph_zip_lines.py:113-138 | a row offers an edge only when its trip's last valid row has sequence number exactly one less; the edge runs between stops with weight at least 20 and a non-empty line |
| GraphBuildLines.MachineStep | build_gtfs_graph_zip_lines.py:126-138 | the loop's `last_by_trip` test computes exactly the row's offer |
| GraphBuildLines.LineMapReset | build_gtfs_graph_zip_lines.py:141-142 | a new pair, or a strictly smaller weight, replaces the entry and resets its lines to {line} |
| GraphBuildLines.LineMapJoin | build_gtfs_graph_zip_lines.py:143-146 | a weight within 1e-6 above the best adds the line to the set |
| GraphBuildLines.LineMapIgnore | build_gtfs_graph_zip_lines.py:143-146 | a weight at least 1e-6 above the best changes nothing |
| GraphBuildLines.LineRow | build_gtfs_graph_zip_lines.py:113-148 | one row keeps both the trip state and the edge-map invariant |
| GraphBuildLines.OutputEdges | build_gtfs_graph_zip_lines.py:151-161 | one output edge per pair, each pair once, each with at most 8 sorted, distinct, non-empty lines: the trimmed set of the pair's entry |
| GraphBuildLines.BuildLinedEdges | build_gtfs_graph_zip_lines.py:105-161 | each pair once, between stops, with weight at least 20 and at most 8 sorted, distinct, non-empty lines; its weight is the least offered, first offered at a recorded row, and strictly less than any offer before that row; its lines are the trimmed names offered from that row on within 1e-6 of the weight |
| GraphBuildLines.TrimSmallest | build_gtfs_graph_zip_lines.py:153-160 | lines are sorted, distinct, non-empty, at most 8, drawn from the set, and are its smallest names: a name left out ranks after all eight kept |
| GraphBuildLines.SuffixMatchPlain | build_gtfs_graph_zip_lines.py:42 | the "/" and "\\" alternatives add nothing to the plain suffix test |
| GraphBuildLines.AnySuffix | build_gtfs_graph_zip_lines.py:41-43 | the inner loop finds whether some candidate is a suffix of the lower-cased name |
| GraphBuildLines.FindName | build_gtfs_graph_zip_lines.py:33-44 | if any candidate is a name, the first such candidate; otherwise the first name ending with a candidate, or None iff there is none |
| GraphBuildLines.LinedEdgeLoads | build_gtfs_graph_zip_lines.py:152-160 | every output edge runs between stops, weighs at least 20, and has at most 8 sorted, distinct, non-empty lines |
| GraphBuildLines.BuildGraph | build_gtfs_graph_zip_lines.py:61-166 | stops as indexed; the edges are the JSON form of the lined edges (each pair once, at its least offered weight, with the lines offered within 1e-6) over that stop index and the route and trip tables; every edge has numeric from, to and w and a lines array with those bounds; the graph loads in gtfs.js |

The stop-indexing loop of build_gtfs_graph_zip_lines.py:62-75 is the same as that of build_gtfs_graph_zip.py:47-60. Both builders use `GraphRows.IndexStops` and `GraphRows.KeptStopsExactly`.

## Left out

- Leaflet and the DOM: markers, layers, the drawer, pills, status lines and rendering.
- `localStorage`, GPS watching, timers and debouncing. Async ordering is also left out: each awaited call is a lookup in given data.
- Network I/O. `fetchTextAny`, `osrmRoute` and `osrmTable`, the elevation call and the fetch of graph.json are given as inputs.
- Floating point. Haversine and the trigonometry of `spreadSelectedCars` become given distances; `toFixed` keys, NaN and rounding are not modelled. Costs are exact reals.
- `evalJsLiteral` (uses `new Function`) and `normalizeCar` (probes untyped records). The feed arrives already normalised.
- Reading the ZIP, decoding CSV (UTF-8 with BOM, latin-1 fallback), argparse and writing graph.json. The rows are given as sequences; a float() or int() that fails is `None`.
- `str.lower` and string sorting are modelled on ASCII. JavaScript's UTF-16 sort and Python's code-point sort agree on that range. `str.strip` removes every character for which `str.isspace()` holds, the full Unicode set included.
- JSON values other than numbers. gtfs.js is given `from`, `to` and `w` as numbers or `None`; a non-integer `from` is not modelled.
- The iteration order of Python's `set(zf.namelist())` is unspecified. Both FindName methods take the names in the order given.
- GraphBuild.BuildEdges: states the contents of the output edges but not their order. Python's `dict.items()` lists each pair in the order it was first inserted.
- GraphBuildLines.BuildLinedEdges: states the contents of the output edges but not their order, which is the insertion order of `dict.items()`.
- TransitSearch.Search: does not prove that Dijkstra's distances are shortest. It states consistency of the predecessor links, termination at the first end stop popped, and unreachability when none is found.
- TransitGraph.Gtfs.Plan: `totalDistance` is always null and is modelled as None. The optional-chaining guards on edges without a line field collapse to `NoLines`.
- TransitGraph.Gtfs.Plan: requires non-negative edge weights, which gtfs.js does not check. With a negative cycle the source's search never ends. Both BuildGraph members prove the condition for every graph they write, so every graph the builders produce meets it.
- PlanDetails.BuildPlanDetails: when the exact search finds no finite plan, app.js calls buildPlanDetails with null steps, and that throws. The model returns None.
- PlanDetails.BuildPlanDetails: `Number()` is modelled on a field of ASCII digits only. Any other non-empty field is None (NaN), although JavaScript also accepts surrounding whitespace, a sign, a fraction, an exponent or a hex prefix.
- PlanDetails.RouteLeg: when OSRM fails for both endpoints, `osrmRoute` throws and routeLeg does not catch it. The model returns None. The code does not degrade to a closed-form estimate there.
- build_gtfs_graph_zip_lines.py:42 contains the literal `"\"`, so the file does not parse as written. The model uses the intended `"\\"`. SuffixMatchPlain shows that the alternative never changes the result.

## Findings

| source | as written | input that shows it | evidently intended | confidence | as-written member | corrected member |
|---|---|---|---|---|---|---|
| app.js:1259-1262 | `driveCost.get(...) \|\| { duration: Infinity }` only replaces a missing entry. An entry `{duration: null}` from an OSRM table is truthy, so `walk.duration + null` costs the pair its walk alone | car 0 has two zones; the first has no driving duration from OSRM and the second has a known one | an unknown driving duration costs Infinity, as the default object and the exact solver's `drive0.duration == null` skip intend | not executed | RouteOrder.NullDriveCountsAsZero | RouteOrder.ExactNoWorseThanGreedy |
