# Gas transmission network — a verified model of the network engine

The program manages a gas transmission network. Its parts are:

- pipes, with a name, length, diameter, an under-repair flag and a "connected" flag;
- compressor stations, with a number of shops of which some are working;
- a store that holds both kinds of entity by id;
- a directed graph whose vertices are station ids and whose edges are connections, each carried by one pipe.

This project models the engine behind the menus:

- the graph with its mutators, its queries, its cycle test and its topological sort;
- the orchestration that connects, disconnects and deletes stations while keeping each pipe's "connected" flag in step with the graph;
- the `_network.txt` line format, written and read back;
- the shortest route between two stations (Dijkstra's algorithm plus the predecessor read-back);
- the entity store's lookups, filters and updates, and the pipe and station predicates.

Module layout, one file per source unit:

| file | module | models |
|---|---|---|
| `ordered.dfy` | `Wrappers`, `Ordered` | `Option`; ascending order of `std::map`/`std::set` iteration |
| `text.dfy` | `Text` | `std::string::find` and `tolower` over `seq<char>` |
| `pipe.dfy` | `Pipes` | `Pipe` (a value) and the id counter (a class) |
| `compressor_station.dfy` | `CompressorStations` | `CompressorStation` and the shop transitions |
| `pipeline_network.dfy` | `PipelineNetworks` | the entity store (a class over two maps) |
| `graph_paths.dfy` | `GraphPaths` | the adjacency map as a value: edges, walks, cycles, the effect of each mutator |
| `graph.dfy` | `Graphs` | the `Graph` class, its DFS cycle test and Kahn's sort |
| `dijkstra.dfy` | `Dijkstra` | the search loop over an arc map, with its proof of optimality |
| `network_calculator.dfy` | `NetworkCalculator` | edge weights, the shortest-path query, and the defective read-back |
| `network_file.dfy` | `NetworkFiles` | the network file's lines: writing, parsing, round trip |
| `gas_network.dfy` | `GasNetworks` | the `GasNetwork` class and the pipe/edge invariant |

Modelling choices:

- Entities the store holds by value (`Pipe`, `CompressorStation`) are datatypes. Their setters and the shop transitions are record updates.
- Objects whose fields change in place (`Graph`, `PipelineNetwork`, `GasNetwork`, the pipe id counter) are classes. Their methods carry `modifies` clauses.
- Loops stay loops, each with its invariants: the in-degree count, Kahn's queue, the DFS, the filters, the Dijkstra relaxation, the read-back, the file writer and reader, and the cascade in `deleteStation`.
- An ordered `std::map` iterates in ascending key order. The model states that order where the source depends on it: Kahn's seed queue, the fallback tail, and the order of `getConnections`.
- An `unordered_map` in the store has no defined order. Filter results are therefore specified as duplicate-free sequences with exact membership.
- Distances are exact reals. The `INF` sentinel (`DBL_MAX`) is `Dist.Inf`, and the weight of a pipe under repair is `None`.
- Console output, the clock and `logAction` are not modelled. File streams are replaced by sequences of lines.

The central invariant is `GasNetworks.Coherent`. It says:

- no edge carries pipe id -1;
- every pipe id is carried by at most one edge;
- a stored pipe is marked connected exactly when some edge carries it.

`ConnectStations`, `DisconnectStations` and `DeleteStation` preserve it, given that every graph vertex is a stored station.

## Model

| member | source | states |
|---|---|---|
| Pipes.IsValidDiameter | Pipe.cpp:22-26 | true exactly for 500, 700, 1000 and 1400 |
| Pipes.IsAvailableForConnection | Pipe.cpp:35-38 | available iff neither under repair nor connected |
| Pipes.MatchesName | Pipe.cpp:282-293 | the empty query matches every pipe; otherwise a match iff the lower-cased query occurs in the lower-cased name |
| Pipes.SetName | Pipe.cpp:40 | the name becomes the argument and every other field is unchanged |
| Pipes.SetLength | Pipe.cpp:41 | the length becomes the argument and every other field is unchanged |
| Pipes.SetDiameter | Pipe.cpp:42 | the diameter becomes the argument and every other field is unchanged |
| Pipes.SetUnderRepair | Pipe.cpp:43 | the repair flag becomes the argument and every other field is unchanged |
| Pipes.SetIsConnected | Pipe.cpp:44 | the connected flag becomes the argument and every other field is unchanged |
| Pipes.ConnectionFlagDecidesAvailability | Pipe.cpp:35-44 | a pipe marked connected is never available; one marked free is available iff not under repair; marking and restoring the flag gives back the same pipe |
| Pipes.PipeIdAllocator.constructor | Pipe.cpp:9 | the counter starts at 1 |
| Pipes.PipeIdAllocator.ResetId | Pipe.h:25 | the counter returns to 1 |
| Pipes.PipeIdAllocator.TakeId | Pipe.cpp:48-49 | the id handed out is the old counter, and the counter moves one past it |
| Pipes.PipeIdAllocator.NewPipe | Pipe.cpp:13-20 | the pipe holds the given fields; afterwards the counter is strictly above the explicit id and never lower than before (it is id + 1 when the id reached the counter) |
| CompressorStations.UnusedPercentage | CompressorStation.cpp:17-22 | 0 for a station without shops; otherwise the result times the shop count equals 100 times the idle shops |
| CompressorStations.UnusedPercentageBounds | CompressorStation.cpp:17-22 | with shops in range the percentage lies in [0, 100]; it is 0 iff all shops work and 100 iff none does |
| CompressorStations.ApplyShopCommand | CompressorStation.cpp:224-248 | start adds one working shop only below the total, stop removes one only above zero, cancel and refused commands change nothing, no other field changes, and 0 <= working <= total is preserved |
| CompressorStations.StartThenStopRestores | CompressorStation.cpp:224-245 | a start that was accepted followed by a stop restores the station |
| CompressorStations.MatchesName | CompressorStation.cpp:280-283 | a match iff the query occurs in the name as written |
| CompressorStations.StationSearchIsCaseSensitive | CompressorStation.cpp:280-283 | "N" does not match "north", unlike the pipe search; the empty query matches |
| Text.FindFrom | Pipe.cpp:293 | the result is -1 or the first occurrence of the needle at or after the start |
| Text.Find | Pipe.cpp:293 | -1 iff the needle does not occur; otherwise an index where it occurs |
| Text.Lower | Pipe.cpp:290-291 | same length, each character lower-cased |
| PipelineNetworks.PipelineNetwork.constructor | PipelineNetwork.h:14-15 | both maps start empty |
| PipelineNetworks.PipelineNetwork.AddPipe | PipelineNetwork.cpp:20-26 | the pipe is stored under its id and the stations are unchanged |
| PipelineNetworks.PipelineNetwork.AddStation | PipelineNetwork.cpp:28-34 | the station is stored under its id and the pipes are unchanged |
| PipelineNetworks.PipelineNetwork.PipeExists | PipelineNetwork.cpp:329-332 | true iff the id is a key of the pipe map |
| PipelineNetworks.PipelineNetwork.StationExists | PipelineNetwork.cpp:334-337 | true iff the id is a key of the station map |
| PipelineNetworks.PipelineNetwork.GetPipeById | PipelineNetwork.cpp:375-393 | the stored pipe for a present id, None otherwise |
| PipelineNetworks.PipelineNetwork.GetStationById | PipelineNetwork.cpp:395-413 | the stored station for a present id, None otherwise |
| PipelineNetworks.PipelineNetwork.MarkPipeAsConnected | PipelineNetwork.cpp:428-435 | only that pipe's connected flag changes, and an unknown id changes nothing |
| PipelineNetworks.PipelineNetwork.DeletePipe | PipelineNetwork.cpp:242-253 | only that key leaves the pipe map; the graph is not touched |
| PipelineNetworks.PipelineNetwork.DeleteStation | PipelineNetwork.cpp:255-266 | only that key leaves the station map |
| PipelineNetworks.PipelineNetwork.EditStation | PipelineNetwork.cpp:207-219 | a stored station takes the shop transition; an unknown id changes nothing |
| PipelineNetworks.PipelineNetwork.FilterPipeIds | PipelineNetwork.cpp:109-163 | the shared filter loop: duplicate-free, and an id is listed iff its pipe satisfies the predicate |
| PipelineNetworks.PipelineNetwork.FilterStationIds | PipelineNetwork.cpp:165-191 | the same for stations |
| PipelineNetworks.PipelineNetwork.FindPipesByName | PipelineNetwork.cpp:109-121 | exactly the ids whose pipe matches the name |
| PipelineNetworks.PipelineNetwork.FindPipesByRepairStatus | PipelineNetwork.cpp:123-135 | exactly the ids whose repair flag equals the status |
| PipelineNetworks.PipelineNetwork.FindPipesByDiameter | PipelineNetwork.cpp:137-149 | exactly the ids with that diameter |
| PipelineNetworks.PipelineNetwork.FindPipesByAvailability | PipelineNetwork.cpp:151-163 | exactly the ids whose availability equals the argument |
| PipelineNetworks.PipelineNetwork.FindStationsByName | PipelineNetwork.cpp:165-177 | exactly the ids whose station matches the name |
| PipelineNetworks.PipelineNetwork.FindStationsByUnusedPercentage | PipelineNetwork.cpp:179-191 | exactly the ids whose unused percentage is at least the threshold |
| PipelineNetworks.PipelineNetwork.GetAvailablePipesByDiameter | PipelineNetwork.cpp:415-426 | every pipe returned is stored, has that diameter and is available; every such stored pipe is returned, once per id |
| Ordered.AscendingOrder | Graph.cpp:73-95 | the elements of a set in strictly increasing order, as ordered-map iteration yields them |
| Ordered.IncreasingUnique | Graph.cpp:88-95 | two increasing sequences with the same elements are equal |
| GraphPaths.EdgeSetMembership | Graph.h:21-22 | an edge pair is in the edge set iff the adjacency map has that inner entry |
| GraphPaths.Added | Graph.cpp:31-40 | the inserted edge is present with its pipe id and diameter |
| GraphPaths.AddedKeepsEdges | Graph.cpp:31-40 | every other edge is kept unchanged, and no reverse edge is created |
| GraphPaths.AddedEdges | Graph.cpp:31-40 | a fresh insertion adds exactly that pair, so the edge count grows by one |
| GraphPaths.Removed | Graph.cpp:43-60 | the edge is gone and a source row left empty is pruned |
| GraphPaths.RemovedEdges | Graph.cpp:43-60 | exactly that pair leaves the edge set, the count drops by one, other edges keep their data |
| GraphPaths.WithoutVertex | Graph.cpp:220-233 | the vertex's row is erased and it leaves every other row, which is kept even when it becomes empty |
| GraphPaths.WithoutVertexEdges | Graph.cpp:220-233 | exactly the edges touching the vertex disappear, in both directions, and the others keep their data |
| GraphPaths.AddThenRemoveEdges | Graph.cpp:15-60 | adding then removing a fresh edge restores the edge set |
| GraphPaths.AddThenRemove | Graph.cpp:15-60 | the map itself is restored iff the source did not have an empty row beforehand |
| GraphPaths.EmptyRowAfterVertexRemoval | Graph.cpp:220-233 | after removing the only edge's target, the map still has a key (so `isEmpty`, which tests the keys at line 283, is false) while it has no edge |
| GraphPaths.MutatorsPreserveWellFormed | Graph.cpp:15-60 | insertion and removal keep every edge endpoint inside the vertex set, and so do vertex addition and removal (lines 215-233) |
| GraphPaths.PredecessorClosedCycle | Graph.cpp:117-128 | a non-empty vertex set in which each vertex has a predecessor inside the set lies on a cycle |
| GraphPaths.RepeatClosesCycle | Graph.cpp:165-188 | a walk that revisits a vertex contains a cycle |
| Graphs.Graph.constructor | Graph.cpp:9-13 | the adjacency map and the vertex set start empty |
| Graphs.Graph.AddConnection | Graph.cpp:15-41 | succeeds iff from != to and there is no edge from→to; on success the edge is added with its data and both ends join the vertex set; on refusal nothing changes |
| Graphs.Graph.RemoveConnection | Graph.cpp:43-60 | succeeds iff the edge exists; then only that edge goes (an emptied row is pruned); the vertex set never changes |
| Graphs.Graph.RemoveVertex | Graph.cpp:220-233 | the adjacency becomes the map without that vertex and the vertex leaves the set |
| Graphs.EraseTarget | Graph.cpp:226-229 | the loop over the rows removes the vertex from each of them |
| Graphs.Graph.AddVertex | Graph.cpp:215-218 | the vertex joins the set and the adjacency is unchanged |
| Graphs.Graph.VertexExists | Graph.cpp:210-213 | true iff the vertex is in the set |
| Graphs.Graph.Clear | Graph.cpp:275-279 | both structures become empty |
| Graphs.Graph.GetPipeId | Graph.cpp:235-247 | the edge's pipe id when the edge exists, -1 otherwise |
| Graphs.Graph.IsEmpty | Graph.cpp:281-284 | true iff the adjacency map has no key, which implies there is no edge |
| Graphs.Graph.GetVertexCount | Graph.cpp:286-289 | the size of the vertex set |
| Graphs.Graph.GetEdgeCount | Graph.cpp:291-298 | the number of edges |
| Graphs.Graph.GetConnections | Graph.cpp:249-260 | every edge pair once, in (from, to) ascending order; as many pairs as edges |
| Graphs.Graph.GetConnectionsWithPipe | Graph.cpp:262-273 | every edge with its pipe id once, in (from, to) ascending order; as many entries as edges |
| Graphs.RowConnections | Graph.cpp:262-273 | the entries of one row in ascending target order, exactly the row's edges |
| Graphs.ConnectionsCount | Graph.cpp:291-298 | a sorted list describing exactly the edges is as long as the edge set |
| Graphs.DfsCycleCheck | Graph.cpp:165-188 | true only when the graph has a cycle; false leaves the vertex black, with every successor black and finished earlier |
| Graphs.ExploreSuccessors | Graph.cpp:170-185 | the loop over successors: a gray successor or a recursive hit means a cycle; otherwise every successor ends black |
| Graphs.GrayClosesCycle | Graph.cpp:181-184 | an edge back to a vertex on the current gray path closes a cycle |
| Graphs.BlackClosedAcyclic | Graph.cpp:190-208 | when every vertex is black with later finish times than its successors, the graph is acyclic |
| Graphs.Graph.HasCycle | Graph.cpp:190-208 | true iff the graph has a cycle |
| Graphs.InDegrees | Graph.cpp:71-85 | each vertex's in-degree counts its predecessors |
| Graphs.ZeroInDegreeOrder | Graph.cpp:87-95 | the zero-in-degree vertices in ascending order |
| Graphs.KahnLoop | Graph.cpp:97-115 | the queue loop emits each vertex at most once, only after all its predecessors, starting with the seeded queue |
| Graphs.Kahn | Graph.cpp:71-115 | the emitted order is duplicate-free, starts with exactly the zero-in-degree vertices in ascending order, puts predecessors first, and every vertex left over has a predecessor among the leftovers |
| Graphs.LeftoversOnCycle | Graph.cpp:117-128 | in an acyclic graph nothing is left over |
| Graphs.CompleteOrder | Graph.cpp:117-128 | the leftovers are appended in ascending order, so every vertex appears exactly once |
| Graphs.EmittedAfterPredecessors | Graph.cpp:97-128 | no appended leftover precedes an emitted vertex it has an edge into |
| Graphs.Graph.TopologicalSort | Graph.cpp:62-131 | every vertex exactly once; the seeded prefix is the zero-in-degree vertices in ascending order; every edge into an emitted vertex comes from earlier; the tail is ascending; in an acyclic graph the whole order puts predecessors first |
| NetworkCalculator.CalculateEdgeWeight | NetworkCalculator.cpp:47-57 | the infinite sentinel iff the pipe is under repair, the length otherwise |
| NetworkCalculator.BuildSearch | NetworkCalculator.cpp:96-118 | the arcs of each vertex are its connections whose pipe resolves, weighted by that pipe; every endpoint and the source get a distance (source 0, others infinite) and predecessor -1 |
| NetworkCalculator.ArcIsUsable | NetworkCalculator.cpp:97-108 | an arc with a finite weight exists iff the graph edge exists, its pipe is stored, and the pipe is not under repair |
| NetworkCalculator.WalksAreRoutes | NetworkCalculator.cpp:97-108 | walks in the search's arc map are exactly routes over usable pipes |
| NetworkCalculator.EndpointsTouch | NetworkCalculator.cpp:97-115 | a connection endpoint is a vertex of the graph |
| NetworkCalculator.SearchFrame | NetworkCalculator.cpp:96-122 | the initial maps meet the search's frame: arcs lead to known vertices with non-negative weights |
| Dijkstra.PopIsOptimal | NetworkCalculator.cpp:125-131 | the queue entry with the least distance is a lower bound on every walk to that vertex |
| Dijkstra.Escape | NetworkCalculator.cpp:136-144 | a walk that leaves the settled set passes a queued vertex whose distance is at most the walk's weight |
| Dijkstra.RelaxArcs | NetworkCalculator.cpp:136-145 | relaxing a settled vertex's arcs keeps the search invariant and the set of known vertices |
| Dijkstra.Round | NetworkCalculator.cpp:125-146 | one pop keeps the search invariant and either settles a new vertex or shrinks the queue |
| Dijkstra.Search | NetworkCalculator.cpp:124-146 | the loop ends with the target settled or unreachable; settled distances are optimal and the predecessors chain back to the source |
| Dijkstra.Reconstruct | NetworkCalculator.cpp:153-162 | for a settled target the predecessor read-back, reversed, is a walk from the source to the target whose weight is the target's distance |
| Dijkstra.ShortestWalk | NetworkCalculator.cpp:124-168 | a non-empty walk runs from the source to the target and no walk is lighter; an empty one comes with distance 0 and means no walk exists |
| Dijkstra.WalkWeightsNonNegative | NetworkCalculator.cpp:138 | with non-negative weights every step of a walk weighs at least 0 |
| NetworkCalculator.FindShortestPath | NetworkCalculator.cpp:59-171 | empty with distance 0 when a station is missing or the graph has no edge; a non-empty path is a route over usable pipes from source to target of the reported length, and no route is shorter; an empty path otherwise means no route exists |
| NetworkCalculator.StuckAtZero | NetworkCalculator.cpp:155-159 | once the read-back is at 0, and 0 reads as its own predecessor, the sentinel is never reached |
| NetworkCalculator.ReadBackNeverEnds | NetworkCalculator.cpp:149-159 | a target with no predecessor entry (and no entry for 0) never reaches the sentinel, for any number of steps |
| NetworkCalculator.UnconnectedTargetExample | NetworkCalculator.cpp:149-159 | stations 1, 2, 3 with connection 1→2: the target 3 reads as distance 0 and its read-back never ends |
| NetworkCalculator.UnconnectedTargetUnreachable | NetworkCalculator.cpp:149-168 | a target other than the source that no edge enters ends no route |
| NetworkFiles.NatToStringValue | GasNetwork.cpp:218 | the decimal text of a natural is a non-empty digit string whose value is the number |
| NetworkFiles.SkipSpaces | GasNetwork.cpp:272 | the result is a suffix that does not start with white space, and every dropped character is white space |
| NetworkFiles.DigitRun | GasNetwork.cpp:272 | the length of the leading digit run |
| NetworkFiles.ScanInts | GasNetwork.cpp:272 | a successful scan of k conversions yields k values |
| NetworkFiles.IntRoundTrip | GasNetwork.cpp:272 | one `%d` conversion reads back the integer the writer printed (line 218), after any leading spaces |
| NetworkFiles.SignedRoundTrip | GasNetwork.cpp:272 | an integer printed as at line 218, minus sign included, scans back to itself |
| NetworkFiles.LineRoundTrip | GasNetwork.cpp:272 | parsing a connection line written as at line 218 gives back that connection |
| NetworkFiles.LineIsNotMarker | GasNetwork.cpp:255-268 | a connection line is never one of the marker lines |
| NetworkFiles.Format | GasNetwork.cpp:206-221 | header, version and `Connections:` first, `EndConnections` last, four lines more than connections |
| NetworkFiles.WriteLines | GasNetwork.cpp:206-221 | the writer loop emits exactly the formatted lines |
| NetworkFiles.Classify | GasNetwork.cpp:255-268 | the three marker lines are recognised by exact equality |
| NetworkFiles.WrittenLineKind | GasNetwork.cpp:269-273 | a written connection line is classified as data carrying that connection |
| NetworkFiles.ScanBlock | GasNetwork.cpp:264-285 | inside the block, data lines up to the end marker are read in order |
| NetworkFiles.FormatKinds | GasNetwork.cpp:206-221 | how each written line is classified |
| NetworkFiles.ReadKinds | GasNetwork.cpp:253-287 | a classified file of that shape reads as its connections |
| NetworkFiles.FormatThenRead | GasNetwork.cpp:206-285 | reading the written lines gives back exactly the connections written, in order |
| NetworkFiles.ScanNext | GasNetwork.cpp:253-287 | one step of the reading loop: skip the header, start at `Connections:`, stop at `EndConnections`, take a parsed triple while reading, ignore anything else |
| NetworkFiles.ReadStopsAtEnd | GasNetwork.cpp:264-268 | whatever follows the end marker is ignored |
| NetworkFiles.ReadIgnoresPreamble | GasNetwork.cpp:259-269 | lines before `Connections:` are ignored |
| GasNetworks.CheckConnection | GasNetwork.cpp:12-74 | the verdict names the first failing check in source order; every earlier check passed; acceptance iff all nine pass |
| GasNetworks.ConnectPreserves | GasNetwork.cpp:31-79 | an accepted request has no existing edge, so the insertion cannot fail; marking the pipe and inserting the edge keep the invariant |
| GasNetworks.DisconnectPreserves | GasNetwork.cpp:107-113 | removing an edge and freeing its pipe keep the invariant |
| GasNetworks.DeletePreserves | GasNetwork.cpp:322-349 | dropping the edges at a station and freeing their pipes keep the invariant |
| GasNetworks.ClearOne | GasNetwork.cpp:334-337 | freeing one more pipe extends the set of freed pipes |
| GasNetworks.GasNetwork.constructor | GasNetwork.h:12-17 | an empty store and an empty graph, consistent |
| GasNetworks.GasNetwork.ConnectStations | GasNetwork.cpp:9-103 | a refused check changes nothing; acceptance marks the pipe and adds exactly the edge with its pipe id and diameter; the invariant is kept and success holds iff all checks pass |
| GasNetworks.GasNetwork.DisconnectStations | GasNetwork.cpp:105-132 | with no edge nothing changes; otherwise exactly that edge goes and exactly its pipe is freed; the invariant is kept |
| GasNetworks.GasNetwork.DeleteStation | GasNetwork.cpp:322-349 | exactly the edges touching the station go and the others keep their data; the pipes of the removed edges are freed; the vertex and the station record go; a row of the adjacency survives iff it is not the station's and it was empty before or keeps an edge to another station (so `isEmpty` is determined); the invariant is kept |
| GasNetworks.GasNetwork.DropConnection | GasNetwork.cpp:328-337 | one cascade step: the adjacency becomes exactly `Removed` of the edge (its row pruned when emptied), and the edge's pipe is freed |
| GasNetworks.DeletedRows | GasNetwork.cpp:322-346 | after the cascade and `removeVertex`, a row survives iff it is not the station's and was empty from the start or keeps an edge to another station |
| GasNetworks.TouchingAll | GasNetwork.cpp:325-329 | the snapshot's touching pairs are exactly the station's incident edges |
| GasNetworks.GasNetwork.SaveNetworkLines | GasNetwork.cpp:198-234 | the saved lines are exactly the formatted lines of the edges in ascending (from, to) order: framed by the markers, one line per edge; reading them back rebuilds the same edges with the same pipe ids |
| GasNetworks.SavedRoundTrip | GasNetwork.cpp:206-285 | lines written from a graph load back into a graph with the same edges and pipe ids |
| GasNetworks.LoadDistinct | GasNetwork.cpp:269-285 | re-adding distinct non-loop triples yields a graph that has exactly those edges |
| GasNetworks.LoadAllAppend | GasNetwork.cpp:253-287 | loading a concatenation is loading one part after the other |
| GasNetworks.GasNetwork.LoadNetworkLines | GasNetwork.cpp:236-292 | the graph is cleared, then each triple read is added with the stored pipe's diameter (500 if unknown) and a known pipe is marked; the stations are unchanged by this part of the load |
| GasNetworks.GasNetwork.ReadLine | GasNetwork.cpp:255-286 | one iteration of the reading loop updates the state by exactly the connection it reads |
| GasNetworks.GasNetwork.LoadLine | GasNetwork.cpp:275-284 | one triple: the edge added with the pipe's diameter or 500, and a known pipe marked connected |

## Left out

- Console input and output, the menus in main.cpp, and everything in utils.cpp (input retry loops, the clock). These are interaction, not logic.
- `logAction`, which appends to a log file, is treated as doing nothing.
- File streams: the network file is a sequence of lines. Opening, the `_network.txt`/`_data.txt` names, and `PipelineNetwork::saveToFile`/`loadFromFile` with the per-entity file formats are not part of this model.
- The one-line `GasNetwork` wrappers that forward to the store (GasNetwork.h:35-45) are not modelled separately. The store operations they call are.
- `calculatePipeCapacity` and `calculateMaxFlow`: floating-point formulas (`sqrt`, `pow`) and an Edmonds–Karp loop over double capacities.
- Printing only: `displayPath`, `Graph::display`, `displayNetwork`, `displayNetworkStatus` and `performTopologicalSort`. The same goes for the `GasNetwork::calculateShortestPath` wrapper, which checks the stations and prints the result of `findShortestPath`.
- The interactive parts of `Pipe::input`, `Pipe::edit`, `CompressorStation::input` and `CompressorStation::edit`, as well as `editPipe` and `batchEditPipes`. Only the start/stop-shop transitions and the id counter are modelled.
- The setters `Pipe::edit` uses to toggle the connected flag by hand are modelled. The proofs of the pipe/edge invariant do not cover such a manual edit, because it breaks the invariant.
- `PipelineNetwork.DeletePipe` does not touch the graph, so an edge can be left carrying a missing pipe id. `GasNetworks.Coherent` says nothing about such edges, and the orchestration proofs do not cover a pipe deleted while in use.
- The `Edge` fields `b` and `isAvailable` (Graph.h:16, 18) are not modelled. `addConnection` sets `isAvailable` to true and nothing reads either field.
- The station id counter (CompressorStation.cpp:6, resetId at CompressorStation.h:22) is not modelled separately. It behaves like the pipe counter.
- 32-bit `int` range: ids and shop counts are unbounded integers. `%d` overflow in `sscanf` and the text of `INT_MIN` are not modelled.
- IEEE rounding: distances are exact reals, and `INF` is a separate value rather than `DBL_MAX`.
- CompressorStations.UnusedPercentage: the percentage is an exact real, not the `double` quotient of CompressorStation.cpp:21. Where the double rounds (3 shops, 2 working: 33.333333333333336 against the exact 100/3), the value differs in the last place.
- PipelineNetworks.PipelineNetwork.FindStationsByUnusedPercentage: the threshold and the percentage are exact reals, so the `>=` of PipelineNetwork.cpp:184 can decide differently at a rounding boundary (threshold 33.333333333333336 lists a station with 3 shops and 2 working in the source, and not in the model).
- The order of `unordered_map` iteration in the store is unspecified. The `find*` filters and `GetAvailablePipesByDiameter` state membership and no duplicates, not a particular order.
- The priority queue is a set of (distance, vertex) pairs. With non-negative weights the same pair is never pushed twice, so no duplicate is lost.
- NetworkCalculator.FindShortestPath requires non-negative pipe lengths (pipe input accepts only positive lengths, Pipe.cpp:101-108). It also requires that -1 is neither a vertex nor a station, because -1 is the predecessor sentinel.
- NetworkCalculator.FindShortestPath uses the corrected lookups listed under Findings. It does not reproduce the non-terminating read-back, which is modelled separately.
- Dijkstra.Round and GasNetworks.GasNetwork.ReadLine end the loop through a flag where the source uses `break`.
- GasNetworks.GasNetwork.ConnectStations keeps the source's unrolled-back failure branch. The model proves that branch unreachable only under the invariant (no edge carries pipe id -1). An edge with pipe id -1 can come only from a loaded file.
- GasNetworks.GasNetwork.LoadNetworkLines stops where the connection file is read (GasNetwork.cpp:236-292). The source then reloads the store from the data file (line 295, PipelineNetwork.cpp:300-301), which clears and replaces both the pipes and the stations and so discards the connected marks set during the load; that reload is not modelled.
- GasNetworks.GasNetwork.LoadNetworkLines states the loaded state through `LoadAll`. Pipe flags set by an earlier load are not cleared by `clear()`, as in the source. The model does not claim the invariant after a load, because a file may name the same pipe twice.

## Findings

| source | as written | input that shows it | evidently intended | confidence | as-written member | corrected member |
|---|---|---|---|---|---|---|
| NetworkCalculator.cpp:149-159 | `dist[targetStation]` default-inserts 0.0 for a station that touches no connection, so the read-back starts; `prev[current]` then default-inserts 0, and the loop `while (current != -1)` never reaches -1 | stations 1, 2, 3; one connection 1→2 over a pipe of length 5; shortest path from 1 to 3 (also: source equal to target at station 3, which touches no connection, since `dist[3]` is set to 0 and `prev[3]` reads 0; this second input reaches the loop only through a direct call, because the menu path `GasNetwork::calculateShortestPath` refuses source == target at GasNetwork.cpp:371-375) | a target with no distance entry is unreachable: empty path, distance 0 | not executed | NetworkCalculator.ReadBackNeverEnds (instance: NetworkCalculator.UnconnectedTargetExample) | NetworkCalculator.FindShortestPath (with NetworkCalculator.UnconnectedTargetUnreachable) |
