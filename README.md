# medcom routing and selection core in Dafny

medcom is a dashboard for planning a doctor's multi-stop visits to a set of users (patients). The doctor and the users are placed on a road graph, and several all-pairs shortest-path algorithms are run on it and compared. The frontend lets the dispatcher pick users from a combobox or from a table with a priority flag per user.

This project models two groups of logic from that system and proves properties about them.

**Backend**
- `OsrmClient`: the OSRM client. It normalises the base URL and selects the k nearest neighbours from a distance row. It also models how the client turns string ids back into waypoint positions and how it checks the arguments of a full route.
- `Benchmark`: the benchmark router. It rejects unknown doctors and users, lays out the waypoints, builds the adjacency matrix from the sparse adjacency list, and requests one route geometry per user.
- `FloydWarshall`: Floyd–Warshall on an `array2` matrix, and the greedy visiting order built on its distances.
- `Dijkstra`: Dijkstra's algorithm with a binary heap and lazy deletion, run from every node.
- `BellmanFord`: Bellman–Ford with n−1 rounds, run from every node.
- Shared modules:
  - `Weights` holds distances extended with infinity.
  - `Graphs` holds walks over the matrix and over the adjacency list.
  - `Relaxation` holds the label-correcting argument that Dijkstra and Bellman–Ford share.
  - `Wrappers` holds `Maybe` and `Result`.

**Frontend**
- `MultipleSelector`: the multi-select combobox. It covers the selection cap, unselect, clear-all, the grouping of options, the exclusion of selected options from the dropdown, and the search effect.
- `DataTable`: the users table's row selection.
- `UserTableSelector`: the priority map next to the table.
- `UserSelector`: the mapping between users, options and ids.

**Modelling conventions**
- Distances are `Weight = Fin(n) | Inf` over natural numbers. Road distances from OSRM are non-negative, and `float('inf')` is `Inf`.
- An adjacency list is a sequence of edge lists indexed by node. This matches the `{0: [...], …, n-1: [...]}` dictionaries the graph builder produces.
- Every algorithm is proved against an independent definition:
  - Floyd–Warshall gives the least weight of any walk in the matrix.
  - Dijkstra and Bellman–Ford meet `IsShortestDistance`: no walk is lighter, and a finite value is the weight of some walk. That contract has exactly one solution, so the two algorithms provably return the same table (`Relaxation.AllPairsUnique`).
- React state and mutable objects are classes.
  - Their fields mirror the component state.
  - Their methods mirror the handlers and effects.
  - Callback calls are recorded in ghost logs, so each contract says what was emitted and how many times.

## Model

| member | source | states |
|---|---|---|
| OsrmClient.Client.constructor | backend/src/modules/preprocess/osrm_client.py:14-15 | the stored base URL is the argument with every trailing `/` removed, so it never ends in `/` |
| OsrmClient.RStrip | backend/src/modules/preprocess/osrm_client.py:15 | the result is the longest prefix not ending in the character, and everything cut off is that character |
| OsrmClient.RStripIdempotent | backend/src/modules/preprocess/osrm_client.py:15 | stripping twice is stripping once |
| OsrmClient.NatToString | backend/src/modules/preprocess/osrm_client.py:53 | `str(i)` is a non-empty string of digits with no leading zero |
| OsrmClient.ParseNat | backend/src/modules/preprocess/osrm_client.py:46 | `int(s)` on digit strings succeeds exactly when the string is a non-empty run of digits |
| OsrmClient.ParseNatToString | backend/src/modules/preprocess/osrm_client.py:46 | `int(str(n)) == n` for every natural n |
| OsrmClient.CandidatesSound | backend/src/modules/preprocess/osrm_client.py:50-53 | every candidate is an index other than the source whose distance is not `None`, paired with that distance |
| OsrmClient.CandidatesIncreasing | backend/src/modules/preprocess/osrm_client.py:50-53 | the candidates are listed in strictly increasing index order, so no index appears twice |
| OsrmClient.CandidatesComplete | backend/src/modules/preprocess/osrm_client.py:50-53 | every index other than the source whose distance is not `None` appears among the candidates with its distance |
| OsrmClient.CollectCandidates | backend/src/modules/preprocess/osrm_client.py:50-53 | the `enumerate` loop builds exactly the candidate list |
| OsrmClient.InsertionPoint | backend/src/modules/preprocess/osrm_client.py:56 | the position after every entry no farther than the new one and before every farther entry |
| OsrmClient.InsertSorted | backend/src/modules/preprocess/osrm_client.py:56 | inserting after every entry no farther than the new one keeps the list sorted by distance |
| OsrmClient.InsertStable | backend/src/modules/preprocess/osrm_client.py:56 | the same insertion keeps equal distances in index order when the new entry has the largest index |
| OsrmClient.InsertStep | backend/src/modules/preprocess/osrm_client.py:56 | one insertion extends the sorted permutation of the prefix by one element |
| OsrmClient.SortByMeters | backend/src/modules/preprocess/osrm_client.py:56 | the stable sort by distance returns a permutation that is sorted, and ties keep index order |
| OsrmClient.TakePrefix | backend/src/modules/preprocess/osrm_client.py:57 | `s[:k]` is a prefix of Python's slice length, including a negative k |
| OsrmClient.NearestNeighbors | backend/src/modules/preprocess/osrm_client.py:45-57 | the result has the Python slice length of the candidates. Every entry is an eligible index with its distance. Entries are ordered by distance, ties by index. An eligible index left out is farther than every entry kept, or as far with a larger index, so a tie at the cut keeps the smaller index as the stable sort does |
| OsrmClient.AsIdPairs | backend/src/modules/preprocess/osrm_client.py:53 | each `(str(i), distance)` pair parses back to the neighbour's index and keeps its distance |
| OsrmClient.ParseAllIds | backend/src/modules/preprocess/osrm_client.py:46-53 | every id written with `str` parses back with `int` |
| OsrmClient.Client.RouteFor | backend/src/modules/preprocess/osrm_client.py:59-79 | `get_route` succeeds exactly when both ids parse and index the waypoints, and then requests the two waypoints in that order. A bad first id gives its own error before the second id is read |
| OsrmClient.Client.FullRouteFor | backend/src/modules/preprocess/osrm_client.py:94-106 | `get_full_route` fails exactly when there are fewer than two waypoints, with the source's message; otherwise it requests all waypoints in order |
| Benchmark.BuildWaypoints | backend/src/modules/routers/benchmark.py:27-31 | the doctor comes first with id "0". Every other node is a found user with id `str(p + 1)`. When all users are found, the list is exactly doctor plus users in request order |
| Benchmark.FromUserMono | backend/src/modules/routers/benchmark.py:29-31 | a node from a user below one bound is from a user below a larger bound |
| Benchmark.WaypointsOfUsers | backend/src/modules/routers/benchmark.py:27-31 | with every user found, the waypoints are the doctor followed by all users in request order |
| Benchmark.WaypointIdsArePositions | backend/src/modules/routers/benchmark.py:28-31 | every waypoint id parses back to the waypoint's own position |
| Benchmark.LastWeightSpec | backend/src/modules/routers/benchmark.py:43-45 | the looked-up weight is that of the last listed edge to j, and absent exactly when no listed edge goes to j |
| Benchmark.MatrixCellDefault | backend/src/modules/routers/benchmark.py:40-42 | a cell with no listed edge is 0 on the diagonal and infinity elsewhere |
| Benchmark.MatrixCellListed | backend/src/modules/routers/benchmark.py:43-45 | a cell with a listed edge holds the weight of the last listed edge to that node |
| Benchmark.BuildAdjMatrix | backend/src/modules/routers/benchmark.py:39-45 | the fresh n×n matrix holds the cell value for every pair |
| Benchmark.FillRow | backend/src/modules/routers/benchmark.py:44-45 | writing one node's edges sets that row to its cell values and leaves every other row alone |
| Benchmark.RouteFromDoctor | backend/src/modules/routers/benchmark.py:51-53 | `get_route("0", str(i), coordinates)` requests the route from the doctor's coordinates to those of waypoint i |
| Benchmark.RouteGeometries | backend/src/modules/routers/benchmark.py:50-56 | one geometry per user, in waypoint order, each the route from the doctor to that user |
| Benchmark.RunBenchmark | backend/src/modules/routers/benchmark.py:18-58 | 404 "Doctor not found" for a missing doctor and 404 "One or more users not found" for a missing user. Otherwise the sparse graph is built on the doctor-first waypoints with k = 4, the matrix has the cell value for every pair, and there is one geometry per user from the doctor, on the stripped base URL |
| FloydWarshall.Relax | backend/src/modules/algorithms/floyd_warshall.py:15-16 | the compare-and-store keeps the smaller of the cell and the path through k |
| FloydWarshall.PivotStable | backend/src/modules/algorithms/floyd_warshall.py:12-16 | round k leaves row k−1 and column k−1 as round k−1 left them, which is why updating in place is sound |
| FloydWarshall.RoundBelowInput | backend/src/modules/algorithms/floyd_warshall.py:11-16 | no round raises a cell above the input |
| FloydWarshall.RoundAchieved | backend/src/modules/algorithms/floyd_warshall.py:12-16 | after k rounds each cell is the weight of a walk whose inner nodes are all below k |
| FloydWarshall.RoundLowerBound | backend/src/modules/algorithms/floyd_warshall.py:12-16 | after k rounds no walk with inner nodes below k is lighter than the cell |
| FloydWarshall.SplitAt | backend/src/modules/algorithms/floyd_warshall.py:15 | a walk splits at an inner node into two shorter walks whose weights add up |
| FloydWarshall.FinalRoundIsShortest | backend/src/modules/algorithms/floyd_warshall.py:1-17 | after n rounds each cell is the least weight of any walk between its nodes |
| FloydWarshall.TriangleInequality | backend/src/modules/algorithms/floyd_warshall.py:1-17 | the resulting distances satisfy the triangle inequality |
| FloydWarshall.CopyMatrix | backend/src/modules/algorithms/floyd_warshall.py:11 | the working matrix is a fresh copy, so the input is not changed |
| FloydWarshall.RoundStep | backend/src/modules/algorithms/floyd_warshall.py:15-16 | round k keeps a cell unless the path through node k−1 is strictly shorter, and then takes that path's weight |
| FloydWarshall.RelaxCell | backend/src/modules/algorithms/floyd_warshall.py:15-16 | the compare-and-store gives cell (i, j) its round-(k+1) value and changes no other cell |
| FloydWarshall.RelaxThrough | backend/src/modules/algorithms/floyd_warshall.py:13-16 | one pass over pivot k turns the round-k matrix into the round-(k+1) matrix in place |
| FloydWarshall.FloydWarshall | backend/src/modules/algorithms/floyd_warshall.py:1-17 | a fresh matrix holding the least walk weight for every pair; the input array is unchanged |
| FloydWarshall.NearestExists | backend/src/modules/algorithms/floyd_warshall.py:31 | `min(unvisited, key=…)` picks an unvisited node at least distance from the current node |
| FloydWarshall.GreedyOrder | backend/src/modules/algorithms/floyd_warshall.py:26-35 | the order starts at the start node and then visits every user index exactly once. Each step moves to an unvisited node nearest to the current one |
| FloydWarshall.FloydWarshallRoute | backend/src/modules/algorithms/floyd_warshall.py:20-35 | the greedy order over the Floyd–Warshall distances of the input matrix |
| FloydWarshall.GreedyAdvance | backend/src/modules/algorithms/floyd_warshall.py:29-34 | appending a nearest unvisited node and removing it keeps the loop invariant |
| FloydWarshall.NextStep | backend/src/modules/algorithms/floyd_warshall.py:31-34 | the step just taken is a nearest-neighbour step, and the visited set grows by the node taken |
| Graphs.ShortestDistanceUnique | backend/src/modules/algorithms/dijkstra_all_pairs.py:3-8 | at most one value meets the shortest-distance contract for a pair |
| Graphs.ShortenWalk | backend/src/modules/algorithms/bellman_ford_all_pairs.py:15 | every walk can be replaced by one with fewer edges than nodes, the same ends and no greater weight |
| Graphs.Pigeonhole | backend/src/modules/algorithms/bellman_ford_all_pairs.py:15 | more than n values below n contain a repeat |
| Relaxation.InitialDistances | backend/src/modules/algorithms/bellman_ford_all_pairs.py:13-14 | the source is labelled 0 and every other node infinity |
| Relaxation.Relax | backend/src/modules/algorithms/dijkstra_all_pairs.py:19-21 | relaxing an edge lowers only its target, to at most the source label plus the weight |
| Relaxation.RelaxAchievable | backend/src/modules/algorithms/dijkstra_all_pairs.py:19-21 | after a relaxation, every finite label is still the weight of some walk from the source |
| Relaxation.RelaxedLowerBound | backend/src/modules/algorithms/dijkstra_all_pairs.py:11-23 | when no edge can be relaxed, no walk is lighter than the label of its end |
| Relaxation.AllPairsUnique | backend/src/modules/algorithms/dijkstra_all_pairs.py:25-28 | two tables that both meet the all-pairs contract are equal, so Dijkstra and Bellman–Ford agree |
| Dijkstra.PopMin | backend/src/modules/algorithms/dijkstra_all_pairs.py:16 | `heappop` removes one entry that is least in tuple order, and keeps the rest |
| Dijkstra.UpdateCounts | backend/src/modules/algorithms/dijkstra_all_pairs.py:20-21 | how lowering one label changes the count of infinite labels and the sum of finite ones |
| Dijkstra.ImprovesUpdate | backend/src/modules/algorithms/dijkstra_all_pairs.py:20-21 | a strict relaxation lowers the main loop's termination measure |
| Dijkstra.InitialState | backend/src/modules/algorithms/dijkstra_all_pairs.py:12-14 | the initial labels and the one-entry heap meet the loop invariant |
| Dijkstra.PopStale | backend/src/modules/algorithms/dijkstra_all_pairs.py:17-18 | skipping a stale entry keeps the invariant |
| Dijkstra.PopCurrent | backend/src/modules/algorithms/dijkstra_all_pairs.py:16-19 | popping a current entry starts the scan of that node's edges |
| Dijkstra.ScanStep | backend/src/modules/algorithms/dijkstra_all_pairs.py:19-22 | each relaxation with its push keeps the scan invariant |
| Dijkstra.FinalLabels | backend/src/modules/algorithms/dijkstra_all_pairs.py:15-23 | with the heap empty, every label is the shortest distance |
| Dijkstra.ShortestFrom | backend/src/modules/algorithms/dijkstra_all_pairs.py:11-23 | the inner `dijkstra(source)` returns the shortest distance to every node, infinity for an unreachable node, and terminates |
| Dijkstra.DijkstraAllPairs | backend/src/modules/algorithms/dijkstra_all_pairs.py:1-28 | one row per source, each the shortest distances from it |
| BellmanFord.InitialLabels | backend/src/modules/algorithms/bellman_ford_all_pairs.py:13-14 | the initial labels are achievable and bound every walk with no edges |
| BellmanFord.RoundStep | backend/src/modules/algorithms/bellman_ford_all_pairs.py:17-19 | one relaxation in a round keeps the round invariant |
| BellmanFord.RelaxRound | backend/src/modules/algorithms/bellman_ford_all_pairs.py:16-19 | one round relaxes every edge once. Labels only go down and stay achievable. Every edge ends at most the round's starting label of its source plus its weight |
| BellmanFord.RoundBound | backend/src/modules/algorithms/bellman_ford_all_pairs.py:15-19 | after round r, no walk of at most r edges is lighter than the label of its end |
| BellmanFord.BoundedIsLowerBound | backend/src/modules/algorithms/bellman_ford_all_pairs.py:3-15 | a bound for walks of at most n−1 edges bounds every walk |
| BellmanFord.ShortestFrom | backend/src/modules/algorithms/bellman_ford_all_pairs.py:12-19 | after n−1 rounds, every label is the shortest distance from the source |
| BellmanFord.BellmanFordAllPairs | backend/src/modules/algorithms/bellman_ford_all_pairs.py:1-21 | one row per source, each the shortest distances from it |
| MultipleSelector.GroupKey | frontend/src/components/ui/multiple-selector.tsx:110 | a string attribute names its own group; a missing or false attribute goes to `''` |
| MultipleSelector.FilterConcat | frontend/src/components/ui/multiple-selector.tsx:121 | filtering a concatenation filters both parts in order |
| MultipleSelector.FilterMembers | frontend/src/components/ui/multiple-selector.tsx:121 | an element is in the filtered list exactly when it is in the list and passes the test |
| MultipleSelector.FilterCount | frontend/src/components/ui/multiple-selector.tsx:121 | a passing element is kept as often as it occurs; a failing one never |
| MultipleSelector.FilterKeepsAll | frontend/src/components/ui/multiple-selector.tsx:191 | a list that passes entirely is unchanged |
| MultipleSelector.FilterNone | frontend/src/components/ui/multiple-selector.tsx:111 | a list where nothing passes filters to empty |
| MultipleSelector.FilterIdempotent | frontend/src/components/ui/multiple-selector.tsx:191 | filtering twice is filtering once |
| MultipleSelector.ClearAllKeepsFixed | frontend/src/components/ui/multiple-selector.tsx:190-193 | clear-all keeps every fixed entry as often as it occurs and nothing else, and clearing again changes nothing |
| MultipleSelector.UnselectRemovesExactly | frontend/src/components/ui/multiple-selector.tsx:128-132 | unselect removes every entry with the value and keeps every other entry as often as it occurs, fixed or not |
| MultipleSelector.GroupKeysAppend | frontend/src/components/ui/multiple-selector.tsx:109-114 | appending an option adds its group name to the names seen |
| MultipleSelector.FilterGroupAppend | frontend/src/components/ui/multiple-selector.tsx:112 | an appended option joins its own group, at the end |
| MultipleSelector.GroupAppend | frontend/src/components/ui/multiple-selector.tsx:110-113 | one reduce step extends the grouping by the next option |
| MultipleSelector.GroupOptions | frontend/src/components/ui/multiple-selector.tsx:107-115 | without `groupBy`, one group `''` holds all options. With it, the group names are those of the options, and each group holds the options with that name in list order |
| MultipleSelector.GroupsPartition | frontend/src/components/ui/multiple-selector.tsx:107-115 | each option sits in the group its attribute names, as often as it is listed, and in no other group |
| MultipleSelector.GroupReduce | frontend/src/components/ui/multiple-selector.tsx:109-114 | the reduce over the options yields, for each group name of the options, the options with that name in list order, and no other key |
| MultipleSelector.GroupAsWritten | frontend/src/components/ui/multiple-selector.tsx:109-114 | the reduce as written, which throws for a group named after an inherited object member |
| MultipleSelector.GroupAsWrittenThrows | frontend/src/components/ui/multiple-selector.tsx:111-112 | grouping an option under `"constructor"` throws |
| MultipleSelector.GroupAsWrittenElsewhere | frontend/src/components/ui/multiple-selector.tsx:109-114 | when no group name is one the accumulator inherits, the reduce as written does not throw and gives the same grouping as `GroupOptions` |
| MultipleSelector.Selectables | frontend/src/components/ui/multiple-selector.tsx:117-126 | the same group names as the groups, each group filtered to the options whose value is not selected |
| MultipleSelector.SelectablesExcludeSelected | frontend/src/components/ui/multiple-selector.tsx:117-126 | no selected value is offered, every offered option comes from its group, and an option of a group is offered exactly when its value is not selected |
| MultipleSelector.GroupedOffers | frontend/src/components/ui/multiple-selector.tsx:107-126 | with grouping on, the dropdown offers exactly the options whose value is not selected |
| MultipleSelector.Selector.constructor | frontend/src/components/ui/multiple-selector.tsx:50-83 | `selected` starts as `value`, `arrayOptions` as `options` when non-empty and `defaultOptions` otherwise, and the first search runs only with `onSearch` and `triggerSearchOnFocus` |
| MultipleSelector.Selector.SearchEffect | frontend/src/components/ui/multiple-selector.tsx:96-100 | a search is dispatched with the input text exactly when `onSearch` exists, the list is open or search-on-focus is set, and the input is non-empty or search-on-focus is set |
| MultipleSelector.Selector.SearchResolved | frontend/src/components/ui/multiple-selector.tsx:101-104 | a resolved search replaces the options and clears loading, for whichever search resolves |
| MultipleSelector.Selector.Type | frontend/src/components/ui/multiple-selector.tsx:182 | typing sets the input text, and a search follows only if the text changed and the condition holds; that search turns loading on, and otherwise loading is unchanged |
| MultipleSelector.Selector.SetOpen | frontend/src/components/ui/multiple-selector.tsx:183-184 | focus and blur set `open`, and a search follows only if it changed and the condition holds; that search turns loading on, and otherwise loading is unchanged |
| MultipleSelector.Selector.Select | frontend/src/components/ui/multiple-selector.tsx:134-143 | at the cap, nothing changes except one `onMaxSelected(maxSelected)`. Below it, the option is appended, `onChange` gets the new list once, and the input is cleared; if the text was not empty and the condition holds, that triggers a search, which turns loading on. The cap is never exceeded |
| MultipleSelector.Selector.Unselect | frontend/src/components/ui/multiple-selector.tsx:128-132 | `selected` loses exactly the entries with the option's value, in order, and `onChange` gets the result once |
| MultipleSelector.Selector.ClearAll | frontend/src/components/ui/multiple-selector.tsx:190-193 | `selected` becomes its fixed entries, in order, and `onChange` gets them once |
| MultipleSelector.Selector.SyncValue | frontend/src/components/ui/multiple-selector.tsx:88-90 | a new `value` replaces `selected` without calling `onChange` |
| MultipleSelector.Selector.SyncOptions | frontend/src/components/ui/multiple-selector.tsx:92-94 | a new non-empty `options` replaces `arrayOptions`; an empty one changes nothing |
| MultipleSelector.Selector.Dropdown | frontend/src/components/ui/multiple-selector.tsx:107-126 | the dropdown offers exactly the loaded options whose value is not selected, each in the group its attribute names |
| DataTable.SelectedIds | frontend/src/components/users-table/data-table.tsx:57 | every id mapped to `true` appears once, and no other id appears |
| DataTable.DistinctCount | frontend/src/components/users-table/data-table.tsx:57 | in an id list without repetitions, each id counts once |
| DataTable.RoundTrip | frontend/src/components/users-table/data-table.tsx:37-57 | marking distinct ids and extracting the `true` keys gives back the same ids, each once, up to order |
| DataTable.Table.constructor | frontend/src/components/users-table/data-table.tsx:32-41 | the table mounts with the selection of the first `value` |
| DataTable.Table.SyncValue | frontend/src/components/users-table/data-table.tsx:35-46 | the selection marks exactly the ids of `value` as `true`, including ids with no row, and a row is selected exactly when its `_id` is listed. `onChange` is not called |
| DataTable.Table.OnRowSelectionChange | frontend/src/components/users-table/data-table.tsx:54-58 | a function updater is applied to the current selection and a value replaces it. `onChange` is called once with exactly the ids mapped to `true` |
| UserTableSelector.Merge | frontend/src/components/users-table/UserTableSelector.tsx:28 | the spread sets only the given id to the value and keeps every other entry |
| UserTableSelector.MergeAgain | frontend/src/components/users-table/UserTableSelector.tsx:28 | of two changes to one id the last wins, so repeating a change is harmless |
| UserTableSelector.MergeCommutes | frontend/src/components/users-table/UserTableSelector.tsx:28 | changes to different ids commute |
| UserTableSelector.Selector.constructor | frontend/src/components/users-table/UserTableSelector.tsx:13-41 | priorities start empty and take the prop if given; the table mounts with `value` |
| UserTableSelector.Selector.HandlePriorityChange | frontend/src/components/users-table/UserTableSelector.tsx:26-32 | the priorities become the merge, the whole new map is emitted once, and the table's selection is untouched |
| UserTableSelector.Selector.SyncPriorities | frontend/src/components/users-table/UserTableSelector.tsx:22-24 | a given prop replaces the priorities wholesale; an absent one leaves them |
| UserTableSelector.Selector.OnRowSelectionChange | frontend/src/components/users-table/UserTableSelector.tsx:35-41 | selection changes pass straight to the table, which stores the resolved selection and forwards to `onChange` exactly its `true` ids, each once, after the earlier calls; the priorities are untouched |
| UserSelector.UsersToOptions | frontend/src/components/UserSelector.tsx:17-19 | one option per user, in order, with value the id and label the name |
| UserSelector.Values | frontend/src/components/UserSelector.tsx:34 | the ids of the options, in order |
| UserSelector.OptionIdsAreUserIds | frontend/src/components/UserSelector.tsx:17-34 | the ids of the options made from users are the users' ids |
| UserSelector.SelectionFromIds | frontend/src/components/UserSelector.tsx:24 | an option is selected exactly when its id is listed. An id is represented exactly when it is listed and some option has it, so an unknown id selects nothing |
| UserSelector.Selector.constructor | frontend/src/components/UserSelector.tsx:13-14 | no options and nothing selected at mount |
| UserSelector.Selector.SyncSelected | frontend/src/components/UserSelector.tsx:22-26 | with ids given and options loaded, the selection becomes the options with a listed id, in options order; otherwise it is not recomputed |
| UserSelector.Selector.UsersLoaded | frontend/src/components/UserSelector.tsx:16-26 | the loaded users become the options and the selection is recomputed |
| UserSelector.Selector.SetValue | frontend/src/components/UserSelector.tsx:22-26 | a new `value` recomputes the selection under the same condition |
| UserSelector.Selector.OnChange | frontend/src/components/UserSelector.tsx:32-35 | the chosen options become the selection, and their ids are emitted once, in the same order |

## Findings

| source | as written | input that shows it | evidently intended | confidence | as-written member | corrected member |
|---|---|---|---|---|---|---|
| frontend/src/components/ui/multiple-selector.tsx:111-112 | `if (!acc[key]) acc[key] = []` on a plain `{}` finds the inherited member for a group named `constructor`, `toString`, `__proto__` and so on. So no list is created, and `acc[key].push` throws a `TypeError` | an option `{ value: "u1", label: "Ana", team: "constructor" }` with `groupBy = "team"` | every group name gets its own list, as for any other name | high for the crash on these names; not executed | MultipleSelector.GroupAsWrittenThrows | MultipleSelector.GroupOptions |

`GroupAsWritten` models the reduce on an accumulator that inherits a given set of names. For a plain `{}` that set is `PrototypeNames`, the members of `Object.prototype`, and `GroupAsWrittenThrows` uses it. `GroupAsWrittenElsewhere` proves, for any such set, that the reduce agrees with `GroupOptions` whenever no group has an inherited name. `GroupOptions` and the dropdown built on it (`Selector.Dropdown`) use the intended grouping. That grouping is proved to partition the options for every name (`GroupsPartition`).

## Left out

- Network, database and HTTP plumbing. These calls become parameters:
  - the OSRM requests and their JSON;
  - `Doctor.get` and `User.get`;
  - `getUsers()`;
  - `build_sparse_graph`: `RunBenchmark` takes it as a function and requires that it return a closed list with one entry per waypoint.
- Async behaviour, concurrency and React's render cycle:
  - each effect is a method that the handler calls when its dependency changed;
  - StrictMode's double invocation of updaters is not modelled;
  - the default `value = []`, a new array on every render, is not modelled as re-running the effect.
- Floating point. Distances are natural numbers plus infinity. Coordinates are integers and are never formatted as `"lon,lat"` strings. The coordinate strings OSRM receives are not modelled.
- OsrmClient.ParseNat: it models `int()` only on ASCII digit strings. Signs, surrounding whitespace and underscores are read as failures, but in this code the ids are always produced by `str` of a natural number.
- OsrmClient.NearestNeighbors:
  - only the selection over the distance row is modelled, which is the row for `int(point_id)` of the OSRM table;
  - the ids are returned as indices, and `AsIdPairs` gives the `str(i)` pairs;
  - the in-place `list.sort` is modelled as a stable insertion sort on a sequence.
- FloydWarshall.GreedyOrder: when several unvisited nodes are equally near, it may pick any of them. Python's `min` picks the first in the set's iteration order, which depends on hashing and is not modelled.
- OsrmClient.Client.RouteFor: only the ids that `int()` accepts as digit strings and the index check are modelled. The request URL and the response fields are not.
- `get_duration_matrix` is not modelled: it is an OSRM request with no logic of its own.
- Dijkstra.PopMin: it states the `heappop` contract, removing a least entry, on a sequence. The binary-heap array layout and `heappush`'s sift are not modelled.
- Dictionaries keyed by node become sequences indexed by node, with the keys `0..n-1` that the graph builder produces.
- The key order of JavaScript objects is not modelled:
  - the groups of `groupOption`;
  - the order `Object.entries` and `Object.keys` list keys;
  - hence the order of ids emitted by `DataTable.SelectedIds`, which is stated as a set with no repeats.
- MultipleSelector.Selector.SearchResolved:
  - a rejected search is not modelled: the source has no `catch`, so loading would stay on;
  - no ordering between searches is modelled: the source resolves them in arrival order, with no debounce and no way to discard stale results.
- The combobox's unused or render-only props are not modelled: `creatable`, `onSearchSync`, `delay`, `selectFirstItem`, placeholders, `disabled`, class names and indicators.
- The hiding of the unselect button for disabled or fixed options is not modelled. It is rendering only; `Unselect` itself does not check `fixed`.
- `JSON.parse(JSON.stringify(…))` is modelled as a plain copy of the groups. The options hold only strings and booleans, which survive that round trip.
- TanStack Table behaviour is not modelled: sorting, filtering, pagination, toggle-all and the checkbox cells. The updater it passes is a parameter.
- The priorities and `onPriorityChange` the table passes to its cells are not modelled, beyond the fact that they do not touch the row selection.
- Timing of the algorithm runs (`benchmark_algorithms`) and the TSP solver are not modelled. `Outcome` carries the inputs handed to them.
