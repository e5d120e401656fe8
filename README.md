# Graph Theory Visualizer: a verified model of its engine

Graph Theory Visualizer is an interactive editor. The user places named
vertices and joins them with edges. Each edge has an optional value, read as
its weight. The graph can be read as directed or undirected. Beside the
canvas the program keeps three kinds of analysis up to date:

- the shortest-path and spanning-tree solvers of `algorithms.py`: Dijkstra,
  Bellman-Ford, A*, Kruskal and Prim;
- the brute-force NP solvers of `np_problems.py`: Independent Set, Clique,
  Vertex Cover and Hamiltonian Path;
- the diagnostics panel of `diagnostics.py`: whether the graph has a cycle,
  how many connected components it has, and how many strongly connected
  components.

The solvers' answers light up vertices and edges on the canvas (`main.py`).
The editor also duplicates graphs, invents vertex names and parses the `k`
typed into a text box (`graph.py`, `utils.py`).

This project models that engine in Dafny and proves what each part computes:

- Vertices and edges are datatypes. Edges name their endpoints. An edge's
  value is `Missing`, an integer, or text that does not parse.
- Objects whose fields the program updates in place are classes: a solver's
  state (`GraphAlgorithm`, `NPProblem`, `GraphDiagnostics`), the host's
  vertex and edge lists (`Store`), and the hooks shared by one generic
  depth-first search (`DfsRun`).
- Loops become methods with invariants.
- Each method is proved against a specification stated independently: reachability by
  walks, routes and their costs, strongly connected classes, spanning
  forests, or the candidate streams of `itertools`. Further lemmas prove
  that specification means what the program promises: the returned path is
  a cheapest route, the count is the number of strong components, the
  spanning forest connects exactly what the graph connects, and a "no"
  answer means that no candidate qualifies.

Module layout:

- `common.dfy`: `Option`, the answer `Item`, Python's order on strings, and
  the normalised pair key.
- `graph_model.dfy`: `Vertex`, `Edge`, `Value`, `Weight`, the weighted
  adjacency, and `Store`.
- `graph_ops.dfy`: `graph.py`.
- `naming.dfy` and `dfs.dfy`: the helpers of `utils.py`.
- `generic_dfs.dfy`: `generic_dfs`.
- `diagnostics.dfy`, `scc.dfy` and `diagnostics_panel.dfy`: `diagnostics.py`.
- `weighted.dfy`, `relaxation.dfy`, `dijkstra.dfy`, `bellman_ford.dfy` and
  `astar.dfy`: the three path solvers.
- `forest.dfy`, `union_find.dfy`, `kruskal.dfy` and `prim.dfy`: the two
  spanning-tree solvers.
- `outcomes.dfy` and `solvers.dfy`: the `GraphAlgorithm` base class.
- `enumeration.dfy` and `np_problems.dfy`: `np_problems.py`.
- `highlights.dfy`: the highlight and edge-adding rules of `main.py`.

Two parts of the program are not among its files: the weighted adjacency
`get_adj(directed)` and the graph fingerprint `_hash_graph` of `GraphState`.

- `GraphModel.WeightedAdj` models `get_adj(directed)` from its callers. It
  has one list per vertex name holding `(neighbour, weight)` in edge order.
  Undirected, each edge also appears at its end. Its shape matches
  `get_weighted_undirected_adj` (algorithms.py:340-349).
- `Outcomes.FingerprintOf` models `_hash_graph` as the set of vertex names
  and the set of `(start, end)` pairs.

## Model

| member | source | states |
|---|---|---|
| `Common.SamePairSets` | main.py:171 | `SamePair(a, b, c, d)` holds exactly when Python's `{a, b} == {c, d}` does |
| `Common.StrLtTotal` | graph.py:99 | of two distinct names one is smaller in Python's string order, so `min`/`max` give one name each |
| `Common.PairKeyEqual` | graph.py:98-102 | two normalised keys `(min, max)` agree exactly when the two unordered pairs are the same |
| `Common.PairKeySymmetric` | graph.py:99 | the key does not depend on argument order, and its two parts are exactly the two names |
| `GraphModel.WeightedAdj` | algorithms.py:133 | the adjacency has exactly one key per vertex name |
| `GraphModel.IncidentIff` | algorithms.py:147 | `(n, w)` is in `u`'s list exactly when some edge joins `u` to `n` with weight `w` (either way round when undirected) |
| `GraphModel.IncidentNamesAreVertices` | algorithms.py:148 | when edges join vertices, every listed neighbour is a vertex name, so `dist[v]` never fails |
| `GraphModel.Store.constructor` | algorithms.py:17-18 | the solver holds the host's own vertex and edge lists |
| `GraphOps.RebuildEdgeLookup` | graph.py:101-102 | every edge's normalised pair is in the lookup, and the lookup holds nothing else |
| `GraphOps.EdgeExistsIff` | graph.py:98-99 | `edge_exists` against a rebuilt lookup holds exactly when some edge joins the two names in either direction, and is symmetric |
| `GraphOps.FreshName` | graph.py:111-114 | the new name is the old one plus one or more apostrophes, is not taken, and every name with fewer apostrophes was taken |
| `GraphOps.MakeDuplicates` | graph.py:110-120 | one duplicate per vertex, in order: shifted position, not highlighted, and a name with the fewest apostrophes that is neither an original name nor an earlier duplicate; `name_map` sends each name to its duplicate's name |
| `GraphOps.AppendEdgeCopies` | graph.py:124-127 | the edge list grows by exactly one copy of each edge between original vertices, and the copies appended during the loop are skipped |
| `GraphOps.DuplicateGraph` | graph.py:104-129 | returns True; the originals are kept, one duplicate per vertex follows, all names stay distinct, and the edges gain the copies between duplicates |
| `GraphOps.CopiedEdgesAll` | graph.py:124-127 | when edges join vertices, every edge is copied, the i-th copy joining the duplicates of the i-th edge's ends with the same value |
| `GraphOps.DuplicatesDistinctFromOriginals` | graph.py:107-115 | originals followed by their duplicates have pairwise distinct names |
| `GraphOps.ValuesAreFresh` | graph.py:125 | no duplicate name is an original name, so a copied edge is never copied again |
| `Naming.NextAvailableVertexName` | utils.py:88-108 | the name is unused; it is the first unused name the iterator yields, and the rest of the iterator is what follows it; when the iterator has none, it is the first unused fallback `letter + apostrophes` |
| `Naming.DigitsRoundTrip` | utils.py:114 | `int(str(n)) == n` for the decimal digits of a natural number |
| `Naming.BaseAndIndexSpec` | utils.py:111-117 | a name ending in `_<digits>` splits into the part before `_` and the digits' value; any other name gives `(name, 1)` |
| `Naming.BaseAndIndexRoundTrip` | utils.py:111-117 | splitting `base + "_" + str(i)` gives back `(base, i)` |
| `Naming.UpdateKValueFromInput` | utils.py:144-148 | `None` exactly when the text is not an integer, otherwise `max(1, int(text))` |
| `Naming.KInputOfDigits` | utils.py:144-148 | the empty text gives `None`; the digits of `n` give `max(1, n)` |
| `Dfs.DfsStack` | utils.py:7-15 | the visited set ends as the old one plus exactly the nodes reachable from `start` by walks that avoid the nodes visited before |
| `Dfs.Unvisited` | utils.py:15 | the nodes pushed are exactly the neighbours not yet visited |
| `Dfs.BacktrackSound` | utils.py:61-66 | every path handed to `on_path_found` extends the initial path by a simple walk through unvisited nodes |
| `Dfs.BacktrackComplete` | utils.py:61-66 | every such simple extension is handed to `on_path_found` |
| `Dfs.BacktrackOnce` | utils.py:61-66 | when no neighbour list repeats a name, no path is reported twice |
| `Dfs.BacktrackPrefix` | utils.py:61-66 | every reported path starts with the initial path |
| `GenericSearch.DfsRun.constructor` | utils.py:18-20 | the search starts with the chosen hooks and empty containers |
| `GenericSearch.DfsRun.Visit` | utils.py:18-58 | the nodes first visited are listed in discovery order and stamped with consecutive times; the tree edges lead from found nodes to exactly the other found nodes; every call below `v` is over, with `low[u]` the least of `tin[u]`, the `tin` of its neighbours other than its parent and the `low` of its tree children; the bridges appended are, in order, exactly the normalised tree edges with `low[n] > tin[v]`; on a normal return the stack lost `v`, so a call from an unvisited node leaves it as it was, and `on_exit` saw every found node once, children before parents, `v` last; `CycleDetected` is raised only on a real cycle or a walk from `v` into the stack as it was at the call |
| `GenericSearch.DfsRun.Enter` | utils.py:29-34 | `v` is visited and pushed on the tracked stack; `tin[v]` and `low[v]` are both the old clock, which moves on by one; nothing else changes |
| `GenericSearch.DfsRun.VisitNeighbor` | utils.py:37-53 | the parent is skipped and nothing changes; a visited neighbour sets `low[v]` to `min(low[v], tin[n])` and raises exactly when the stack is tracked and holds `n`; an unvisited one is searched from as `Visit` promises, after which `low[v]` becomes `min(low[v], low[n])` and the normalised pair is appended exactly when `low[n] > tin[v]` |
| `GenericSearch.DfsRun.TreeEdge` | utils.py:40-48 | the search below `n` is as `Visit` promises; after a normal return `low[v]` becomes `min(low[v], low[n])` and `(min(v, n), max(v, n))` is appended exactly when `low[n] > tin[v]`; after a cycle nothing more changes |
| `GenericSearch.DfsRun.TakeLowLink` | utils.py:45-48 | `low[v]` becomes `min(low[v], low[n])`, and the normalised pair is appended exactly when `low[n] > tin[v]`; no other field changes |
| `GenericSearch.DfsRun.BackEdge` | utils.py:49-53 | `low[v]` becomes `min(low[v], tin[n])` and nothing else changes; a cycle is reported exactly when the stack is tracked and holds `n` |
| `GenericSearch.DfsRun.Leave` | utils.py:55-58 | `v` leaves the tracked stack and is appended to the `on_exit` log; with every neighbour counted, the search tree below `v` is complete and the exits are a postorder ending in `v` |
| `GenericSearch.CycleBackToRoot` | utils.py:52-53 | a walk from `v` into a stack that holds only `v` beyond the stack at entry either reaches the stack at entry or closes a cycle |
| `Diagnostics.BuildAdj` | diagnostics.py:29-35 | one key per vertex name; `n` is listed under `u` exactly when some edge joins `u` to `n` (either way round when undirected) |
| `Diagnostics.BuildAdjReverse` | diagnostics.py:37-41 | one key per vertex name; `u` is listed under `v` exactly when some edge runs from `u` to `v` |
| `Diagnostics.AdjOfClosed` | diagnostics.py:29-35 | every listed neighbour is a key, so `self.adj[n]` never fails |
| `Diagnostics.UndirectedAdjSymmetric` | diagnostics.py:33-34 | read undirected, `n` is listed under `u` exactly when `u` is listed under `n` |
| `Diagnostics.RevOfClosed` | diagnostics.py:37-41 | every name listed in the reverse adjacency is a key |
| `Diagnostics.ReverseIsTranspose` | diagnostics.py:37-41 | the reverse adjacency is the directed adjacency with every arrow turned round |
| `Diagnostics.Explore` | diagnostics.py:83-87 | the search marks `v`, only nodes reachable from `v` avoiding the old marks, and every neighbour of a newly marked node |
| `Diagnostics.ExploreExact` | diagnostics.py:83-87 | starting from a closed marked set, the marks become exactly the old ones plus the nodes reachable from `v` |
| `Diagnostics.ComponentCount` | diagnostics.py:80-93 | the count is the number of vertices, in key order, not reached by the searches from earlier ones |
| `Diagnostics.DirectedVisit` | diagnostics.py:47-57 | a reported cycle is a real directed cycle; otherwise `v` is finished and the stack is as it was |
| `Diagnostics.DirectedHasCycle` | diagnostics.py:43-78 | directed: `Cyclic` is true exactly when the graph has a directed cycle |
| `Diagnostics.RankedAcyclic` | diagnostics.py:56-57 | a ranking of the nodes that falls along every arrow rules out a directed cycle |
| `Diagnostics.CycleFromReach` | diagnostics.py:54-55 | an arrow back to a node that reaches its start closes a directed cycle |
| `Diagnostics.UndirectedVisit` | diagnostics.py:60-68 | a reported cycle is a real undirected cycle; otherwise the search tree grows under `v` and every edge it saw is a tree edge |
| `Diagnostics.UndirectedNeighbor` | diagnostics.py:62-67 | one neighbour turn either reports a real cycle or keeps the tree invariant for the neighbours left |
| `Diagnostics.UndirectedHasCycle` | diagnostics.py:43-78 | undirected: `Cyclic` is true exactly when there is a self-loop or a closed walk through at least three distinct vertices |
| `Diagnostics.TreeAcyclic` | diagnostics.py:60-68 | when every edge joins a node to its search-tree parent, there is no undirected cycle |
| `Diagnostics.MarkedNeighbourCycle` | diagnostics.py:66-67 | a marked neighbour that is not the parent closes an undirected cycle |
| `DiagnosticsPanel.UndirectedInfo` | diagnostics.py:24-27 | for an undirected graph both counts equal the number of connected components, whatever the vertex order |
| `DiagnosticsPanel.GraphDiagnostics.constructor` | diagnostics.py:2-11 | dirty, no cycle, both counts 0 |
| `DiagnosticsPanel.GraphDiagnostics.Update` | diagnostics.py:13-27 | when clean nothing changes; otherwise both adjacencies are rebuilt, `Cyclic` says whether a cycle of the mode's kind exists, `Components` counts the search roots, `Strongly Connected Components` is the strong-class count when directed and `Components` otherwise, and the flag is cleared |
| `DiagnosticsPanel.GraphDiagnostics.MarkDirty` | diagnostics.py:126-127 | sets the flag and changes nothing else |
| `StrongComponents.FinishVisit` | diagnostics.py:99-104 | `v` and what it reaches are finished, appended to `order` in finishing order |
| `StrongComponents.FinishOrder` | diagnostics.py:106-108 | `order` lists every vertex once, and a finished node reaching a later one has its strong class represented no earlier |
| `StrongComponents.CountFromLatest` | diagnostics.py:110-122 | the second pass over the reversed order counts one search per strong class |
| `StrongComponents.StronglyConnectedComponents` | diagnostics.py:95-124 | the count is the number of strongly connected components |
| `StrongComponents.ExploreScc` | diagnostics.py:119-122 | each search of the second pass marks exactly the strong class of its start |
| `StrongComponents.MarkedInScc` | diagnostics.py:113-117 | a node marked by a second-pass search is mutually reachable with its start |
| `StrongComponents.SccMarked` | diagnostics.py:113-117 | every node of the start's strong class is marked by that search |
| `StrongComponents.NumClassesCounts` | diagnostics.py:119-122 | the number of searches started equals the number of distinct classes met |
| `StrongComponents.ClassesAll` | diagnostics.py:119-124 | the searches started over the whole order number exactly the strong classes of the graph |
| `StrongComponents.UndirectedComponents` | diagnostics.py:80-93 | on a symmetric adjacency the search roots number the connected components, whatever the key order |
| `StrongComponents.RootsCountClasses` | diagnostics.py:89-92 | the roots among the first `n` keys number the classes of those keys |
| `Weighted.Pairs` | algorithms.py:169 | `edge_result` holds the consecutive pairs of the path, one fewer than its nodes |
| `Weighted.HasNegativeWeights` | algorithms.py:111-119 | true exactly when some edge's weight is below 0 |
| `Weighted.NoNegativeEdge` | algorithms.py:127-131 | with no negative edge, every adjacency weight is non-negative |
| `Weighted.WeightedAdjClosed` | algorithms.py:135 | every neighbour in the adjacency is a key |
| `Weighted.WeightedUndirectedAdj` | algorithms.py:340-349 | the dictionary built equals the undirected weighted adjacency: every edge listed at both ends, in edge order |
| `Weighted.RouteCostNonNegative` | algorithms.py:127-131 | on non-negative weights every route costs at least 0 |
| `Weighted.Shortcut` | algorithms.py:185-198 | without a reachable negative cycle, every route from the source has one of fewer steps than there are nodes, to the same end and no dearer |
| `Relaxation.Initial` | algorithms.py:135-137 | every distance is infinite except the source's, which is 0 |
| `Relaxation.Relax` | algorithms.py:147-149 | one improving relaxation keeps the distances, links and routes consistent, and no distance rises |
| `Relaxation.ChainStep` | algorithms.py:158-166 | following one `prev` link extends a route, and the predecessor's distance plus the link's weight is at most the node's distance |
| `Relaxation.FeasibleNoNegativeCycle` | algorithms.py:192-198 | when no edge still relaxes, no negative cycle is reachable from the source |
| `Relaxation.FeasibleCheapest` | algorithms.py:192-198 | when no edge still relaxes, the route the chain gives is a cheapest route |
| `Relaxation.FeasibleReach` | algorithms.py:206-215 | when no edge still relaxes, every reachable node has a finite distance |
| `Relaxation.DistNonNegative` | algorithms.py:127-131 | on non-negative weights every finite distance is at least 0 |
| `Relaxation.ChainFalls` | algorithms.py:158-166 | each `prev` link falls in distance or in rank, so the chain from any node ends |
| `BellmanFord.RelaxOne` | algorithms.py:188-190 | one entry lowers `dist[v]` to `dist[u] + w` exactly when that improves it, and keeps the distances, links and routes consistent |
| `BellmanFord.RelaxEntry` | algorithms.py:187-190 | after the `j`-th entry of `u`'s list, no distance has risen and every entry up to it is tight: its node is no farther than `dist[u]` plus its weight, measured against the distances before the list |
| `BellmanFord.RelaxEntries` | algorithms.py:187-190 | relaxing `u`'s list keeps the distances, links and routes consistent, raises no distance and leaves every entry of the list tight |
| `BellmanFord.RelaxRound` | algorithms.py:186-190 | one round over all keys keeps the distances consistent, raises no distance and leaves every entry of every list tight |
| `BellmanFord.InitialBounded` | algorithms.py:181-183 | before any round, every route of no steps from the source is bounded by its distance 0 |
| `BellmanFord.RoundBounded` | algorithms.py:185-190 | if routes of at most `r` steps were bounded by the distances, after one more round routes of at most `r + 1` steps are |
| `BellmanFord.StillRelaxes` | algorithms.py:192-198 | true exactly when some edge still improves a distance |
| `BellmanFord.Search` | algorithms.py:181-190 | after `rounds` rounds the distances are consistent with real routes, and every route of at most `rounds` steps from the source ends at a finite distance no greater than its cost |
| `BellmanFord.NameSetSize` | algorithms.py:185 | there are no more distinct names than vertices, so `len(vertices) - 1` rounds cover every simple route |
| `BellmanFord.RoundsSettle` | algorithms.py:185-198 | without a reachable negative cycle, rounds that bound all routes shorter than the number of nodes leave no entry that still relaxes |
| `BellmanFord.Chain` | algorithms.py:206-215 | the chain from the target ends at a node without link, and the path to it is a route of the stated cost |
| `BellmanFord.Run` | algorithms.py:177-221 | never raises, whatever names the ends are; nothing and inactive exactly when a negative cycle is reachable from the source; otherwise `[source]` when source is target, else a cheapest route with its pairs, or nothing and inactive when the target is unreachable, as it is from a source that is no vertex and from any name to a target that is no vertex |
| `BellmanFord.Find` | algorithms.py:181-221 | from a source that is a key: nothing and inactive exactly when a negative cycle is reachable; otherwise `[source]`, a cheapest route, or nothing and inactive when the target is unreachable |
| `Dijkstra.LowerBound` | algorithms.py:140-150 | with non-negative weights a route leaving the settled nodes costs at least the least entry on the heap |
| `Dijkstra.DoneOptimal` | algorithms.py:140-150 | a settled node's distance is the cost of a cheapest route to it |
| `Dijkstra.TargetBound` | algorithms.py:143-144 | when the target is popped its distance is finite and no route to it is cheaper |
| `Dijkstra.ExhaustedFeasible` | algorithms.py:140 | when the heap runs dry no edge relaxes and the target is unreached |
| `Dijkstra.PopMin` | algorithms.py:141 | the popped entry is on the heap and no entry is smaller |
| `Dijkstra.StalePop` | algorithms.py:144-145 | dropping an entry older than its node's distance keeps the search invariant |
| `Dijkstra.Scan` | algorithms.py:146-150 | relaxing `u`'s list pushes each improved node with its new distance, and afterwards none of `u`'s edges improves |
| `Dijkstra.Settle` | algorithms.py:145-150 | a current entry settles its node, and the search invariant holds with one more settled node |
| `Dijkstra.Visit` | algorithms.py:141-150 | one pop keeps the search invariant and makes progress |
| `Dijkstra.Search` | algorithms.py:138-150 | either the target is reached with a distance no route undercuts, or the heap ran dry with no edge relaxing |
| `Dijkstra.Chain` | algorithms.py:158-166 | the chain from the target ends at the source or at a node without link, along a route of the stated cost |
| `Dijkstra.Run` | algorithms.py:126-170 | a negative weight gives nothing but `active`; otherwise it raises exactly when the source is no vertex and differs from the target; otherwise `[source]` when source is target, else a cheapest route with its pairs, or nothing and inactive when the target is unreachable, as a target that is no vertex always is |
| `Dijkstra.Find` | algorithms.py:138-170 | from a source that is a key: `[source]` when it is the target, otherwise a cheapest route with `active`, or nothing and inactive when the target is unreachable |
| `AStar.PopLowest` | algorithms.py:261 | the popped entry is on the heap and none has a smaller `f` |
| `AStar.ExpandEntry` | algorithms.py:267-272 | one neighbour is relaxed and pushed when it improves; the search invariant is kept |
| `AStar.Expand` | algorithms.py:266-272 | relaxing the current node's list keeps the search invariant, and afterwards none of its edges improves |
| `AStar.Exhausted` | algorithms.py:260 | when the open set runs dry no edge relaxes |
| `AStar.Search` | algorithms.py:255-272 | either the target was reached with a finite distance, or no edge relaxes |
| `AStar.ValueSumZero` | algorithms.py:237-238 | over non-negative weights the sum of the values is non-negative, and zero exactly when every weight is zero |
| `AStar.ScaleZero` | algorithms.py:236-242 | with no negative weight, the heuristic's divisor is zero exactly when there is an edge and every value is `0` |
| `AStar.Run` | algorithms.py:245-292 | a negative weight gives nothing but `active`; otherwise it raises exactly when both ends are vertices, there is an edge and every value is `0` (the first heuristic call divides by zero), or when the source is no vertex and differs from the target (`KeyError`); otherwise `[source]` when source is target, else a route to the target with its pairs, or nothing and inactive when the target is unreachable |
| `AStar.Find` | algorithms.py:254-292 | from a source that is a key: `[source]` when it is the target, otherwise a route with `active`, or nothing and inactive when the target is unreachable |
| `Forests.ForestSnoc` | algorithms.py:327-328 | a pair joining two names not yet joined keeps the list a forest |
| `Forests.SameRoot` | algorithms.py:327 | names with the same representative are joined by the chosen pairs |
| `Forests.OtherRoot` | algorithms.py:327 | names with different representatives are not joined |
| `Forests.SameComponents` | algorithms.py:324-333 | a spanning forest of graph edges joins two names exactly when the graph's edges do |
| `Forests.FewerEdges` | algorithms.py:324-333 | a spanning forest over at least one name has fewer pairs than names |
| `UnionFind.Singletons` | algorithms.py:316-317 | every vertex name is its own parent |
| `UnionFind.SingletonsValid` | algorithms.py:316-317 | the singletons are a valid union-find in which each name represents itself |
| `UnionFind.Find` | algorithms.py:307-311 | returns `v`'s representative, a root, and path halving keeps every representative and the shape |
| `UnionFind.Climb` | algorithms.py:308-310 | one loop turn moves to a higher-ranked node of the same tree |
| `UnionFind.Halve` | algorithms.py:309 | `parent[v]` becomes the grandparent, in the same tree and of higher rank; no other link changes |
| `UnionFind.Union` | algorithms.py:313-314 | the names of `a`'s tree take `b`'s representative, and one tree fewer remains when they differed |
| `UnionFind.Hang` | algorithms.py:314 | hanging one root below another keeps the shape and removes the lower root's tree |
| `Kruskal.SortFacts` | algorithms.py:319-322 | the sorted edges are a permutation in non-decreasing weight order, stable within each weight |
| `Kruskal.Init` | algorithms.py:316-324 | before the loop the invariant holds, with every name alone and no pair chosen |
| `Kruskal.Accept` | algorithms.py:327-329 | an edge between two trees joins names not yet joined, and after the union the pairs stay inside trees and reach the representatives |
| `Kruskal.Consider` | algorithms.py:325-329 | the loop invariant is kept for one more edge, and at most that edge's pair is appended |
| `Kruskal.Finish` | algorithms.py:324-333 | after every edge the pairs are a spanning forest of graph edges chosen in weight order |
| `Kruskal.ChosenFromGraph` | algorithms.py:328 | every appended pair is the ends of an edge of the graph |
| `Kruskal.Run` | algorithms.py:299-333 | directed gives nothing but `active`; a value that does not parse raises; otherwise a spanning forest of graph edges taken in non-decreasing weight order |
| `Prim.EmptyGraph` | algorithms.py:352-356 | without vertices the empty list is a spanning forest |
| `Prim.UndirectedSymmetric` | algorithms.py:347-348 | every list entry has its reverse entry |
| `Prim.PopMin` | algorithms.py:371 | the popped entry is on the heap and none weighs less |
| `Prim.Skip` | algorithms.py:372-373 | dropping an entry whose node is visited keeps the round's invariant |
| `Prim.Visit` | algorithms.py:374-376 | visiting a new node adds it to the round and appends `(parent, node)` when there is a parent |
| `Prim.Push` | algorithms.py:377-379 | an unvisited neighbour is pushed with the current node as parent |
| `Prim.PushAll` | algorithms.py:377-379 | after the pushes the round's invariant holds again |
| `Prim.VisitNode` | algorithms.py:374-379 | one more node is visited, and the round's invariant holds |
| `Prim.Step` | algorithms.py:371-379 | one turn of `while heap` keeps the invariant, and either the heap shrinks or one more node is visited |
| `Prim.Grow` | algorithms.py:368-379 | a round from an unvisited vertex ends with its tree closed: every neighbour of a visited node is visited |
| `Prim.Rounds` | algorithms.py:364-379 | after the rounds every vertex is visited, the pairs form trees of adjacency pairs, and every list is closed |
| `Prim.Spanned` | algorithms.py:364-379 | with every vertex visited and every list closed, the pairs are a spanning forest of graph edges |
| `Prim.EdgeJoined` | algorithms.py:377-379 | both ends of every edge end in one tree, so they are joined |
| `Prim.PairIsEdge` | algorithms.py:376 | every appended pair is an edge of the graph |
| `Prim.Run` | algorithms.py:351-383 | directed or without vertices gives nothing; otherwise a spanning forest of graph edges |
| `Outcomes.FingerprintOf` | algorithms.py:46 | the fingerprint is the set of vertex names and the set of `(start, end)` pairs; values, positions and highlights are not part of it, as the four lemmas below prove |
| `Outcomes.FingerprintIgnoresValues` | algorithms.py:46-49 | changing one edge's value leaves the fingerprint, and so the state key, as it was |
| `Outcomes.FingerprintIgnoresVertexFields` | algorithms.py:46-49 | moving or highlighting vertices, names kept in place, leaves the fingerprint as it was |
| `Outcomes.FingerprintSeesNewPair` | algorithms.py:46-49 | an edge whose `(start, end)` pair no edge had changes the fingerprint |
| `Outcomes.FingerprintSeesNewName` | algorithms.py:46-49 | a vertex with a new name changes the fingerprint |
| `Solvers.GraphAlgorithm.constructor` | algorithms.py:14-31 | empty results, inactive, dirty, no state key, no worker |
| `Solvers.GraphAlgorithm.Reset` | algorithms.py:33-40 | clears both results, the flags, the worker and the state key, and marks the solver dirty |
| `Solvers.GraphAlgorithm.Update` | algorithms.py:42-65 | nothing when computing is off or the state key is unchanged; otherwise it records the key and the ends; a solver missing an end, or with a worker alive, keeps its results; otherwise the solver runs and shows its answer |
| `Solvers.GraphAlgorithm.RunThread` | algorithms.py:67-71 | after `run`, the results are that solver's answer, `active` and `_result_ready` are set and the worker is forgotten; when `run` raises nothing changes and the worker stays |
| `Solvers.RunSolver` | algorithms.py:68 | raises exactly when Kruskal meets an unparseable value on an undirected graph, Dijkstra or A* is given a source that is no vertex and not the target, or A* is given two vertices in a graph whose edge values are all `0`; otherwise the answer of the solver of that kind |
| `Solvers.RunDijkstra` | algorithms.py:126-170 | raises exactly when Dijkstra does; otherwise its answer, as `result` of names |
| `Solvers.RunBellmanFord` | algorithms.py:177-221 | Bellman-Ford's answer, as `result` of names, for any ends |
| `Solvers.RunAStar` | algorithms.py:245-292 | raises exactly when A* does, on a zero mean weight or a missing source; otherwise A*'s answer, as `result` of names |
| `Solvers.RunKruskal` | algorithms.py:299-333 | Kruskal's answer, `result` and `edge_result` being one list of pairs |
| `Solvers.RunPrim` | algorithms.py:351-383 | Prim's answer, `result` and `edge_result` being one list of pairs |
| `Solvers.GetAllAlgorithms` | algorithms.py:386-393 | five fresh solvers in the order Dijkstra, Bellman-Ford, A*, Kruskal, Prim, all sharing the host's graph |
| `Solvers.MarkAllAlgorithmsDirty` | algorithms.py:395-397 | every solver is marked dirty and nothing else changes; it does not make a solver recompute: `Update` still returns early while the state key is unchanged |
| `Enumeration.Combinations` | np_problems.py:44 | asking for more elements than there are gives no combination |
| `Enumeration.CombinationsSound` | np_problems.py:44 | every yielded combination picks `k` increasing positions |
| `Enumeration.CombinationsComplete` | np_problems.py:44 | every choice of `k` increasing positions is yielded |
| `Enumeration.PermutationsSound` | np_problems.py:83 | every yielded ordering is a rearrangement |
| `Enumeration.PermutationsComplete` | np_problems.py:83 | every rearrangement is yielded |
| `Enumeration.FirstFrom` | np_problems.py:44-47 | the loop returns the first candidate that passes, or none when none passes |
| `NpProblems.NameAdjJoins` | np_problems.py:39-43 | in the dictionary built, `n` is under `u` exactly when some edge joins them (either way round when undirected) |
| `NpProblems.AdjOfIsNameAdj` | np_problems.py:39-43 | the solvers' dictionary is exactly the one `_build_adj` builds |
| `NpProblems.IndependentMeans` | np_problems.py:46 | the test holds exactly when no edge runs from an earlier name to a later one |
| `NpProblems.CliqueMeans` | np_problems.py:60 | the test holds exactly when an edge runs from every earlier name to every later one |
| `NpProblems.IsPathMeans` | np_problems.py:84 | the test holds exactly when an edge joins each name to the next |
| `NpProblems.IndependentIsCliqueOfComplement` | np_problems.py:46 | distinct names pass the independence test exactly when they pass the clique test in the complement graph |
| `NpProblems.SubsetSearchCorrect` | np_problems.py:44-48 | "yes" comes with the first passing combination in `itertools` order; "no" only when none passes |
| `NpProblems.IndependentSetCorrect` | np_problems.py:38-48 | a witness is `k` vertex names with no edge from an earlier one to a later one; "no" only when no combination qualifies; `k = 0` finds the empty set and `k > |V|` finds nothing |
| `NpProblems.CliqueCorrect` | np_problems.py:52-62 | a witness is `k` vertex names with an edge from every earlier one to every later one; "no" only when none qualifies |
| `NpProblems.VertexCoverCorrect` | np_problems.py:66-72 | a witness covers every edge and is the name set of a k-combination (`k` names when names are distinct); "no" only when none covers |
| `NpProblems.HamiltonianPathCorrect` | np_problems.py:76-86 | fewer than two vertices answer no; a witness orders all vertex names with an edge from each to the next; "no" only when no ordering qualifies |
| `NpProblems.DirectedIndependenceIgnoresBackEdges` | np_problems.py:41-46 | in directed mode the pair `(a, b)` passes although the edge `b -> a` joins them |
| `NpProblems.UndirectedIndependenceSeesBothWays` | np_problems.py:42-46 | the undirected reading of that graph rejects the pair |
| `NpProblems.DirectedIndependenceIgnoresBackEdge` | np_problems.py:41-46 | for any graph and distinct names, adding an edge from a later name to an earlier one leaves the directed test unchanged, and makes the undirected test fail |
| `NpProblems.EmptyCombination` | np_problems.py:44-47 | for `k = 0` both searches answer yes with no names |
| `NpProblems.SingleCandidate` | np_problems.py:44-48 | with a single candidate, the answer is that candidate exactly when it passes |
| `NpProblems.PairCombinations` | np_problems.py:44 | two vertices have exactly one 2-combination |
| `NpProblems.ListOf` | np_problems.py:71 | `list(cover)` lists each member once and nothing else |
| `NpProblems.ComputeIndependentSet` | np_problems.py:38-48 | the solver's method gives the Independent Set answer |
| `NpProblems.ComputeClique` | np_problems.py:52-62 | the solver's method gives the Clique answer |
| `NpProblems.ComputeVertexCover` | np_problems.py:66-72 | the solver's method gives a Vertex Cover answer |
| `NpProblems.ComputeHamiltonianPath` | np_problems.py:76-86 | the solver's method gives the Hamiltonian Path answer |
| `NpProblems.NPProblem.constructor` | np_problems.py:7-13 | no `k`, the result `(False, [])`, dirty |
| `NpProblems.NPProblem.Compute` | np_problems.py:21 | the answer of this solver's problem |
| `NpProblems.NPProblem.Update` | np_problems.py:18-22 | recomputes exactly when dirty or when `k` changed, then records `k` and clears the flag; otherwise keeps the result |
| `NpProblems.GetAllProblems` | np_problems.py:88-94 | four fresh solvers in the order Independent Set, Clique, Vertex Cover, Hamiltonian Path |
| `NpProblems.MarkAllProblemsDirty` | np_problems.py:96-98 | every solver is marked dirty and nothing else changes |
| `Highlights.ApplyHighlights` | main.py:130-152 | every flag is cleared; a list of pairs lights the edges whose normalised ends are listed, any other non-empty list lights the vertices named by the `str` of an element, so a pair lights a vertex named like the tuple, `('A', 'B')` |
| `Highlights.PlainNameLit` | main.py:149-152 | a vertex whose name does not start with `(` is lit exactly when a mixed answer lists that name |
| `Highlights.PairTextLit` | main.py:149-152 | in the mixed answer `[("A", "B"), "A", "B"]` the vertex named `('A', 'B')` is lit, as are `A` and `B`, and `C` is not |
| `Highlights.HighlightEdges` | main.py:163-179 | for a walk answer of more than one member the edges between consecutive members are lit, plus the closing edge for HAMCYCLE; no flag is cleared |
| `Highlights.HighlightEdgesForAlgorithms` | main.py:181-190 | the edges listed as pairs are lit, in their direction when directed and either way otherwise; vertex names are ignored and no flag is cleared |
| `Highlights.ClickVertex` | main.py:572-612 | clicking the selected vertex unselects it; with nothing selected the click selects; otherwise a new edge with value "1" is appended exactly when none joins the two and the limit is not reached, and the selection is dropped; an existing edge just moves the selection |

## Left out

- Threads: the worker thread of `GraphAlgorithm.update` (algorithms.py:28, 59-71) is a synchronous call. `busy` stands for `self._thread is not None`. Interleavings with the render loop are not modelled.
- A*'s heuristic (algorithms.py:228-243): it reads vertex positions and divides their distance by the mean weight. The model takes it as a parameter `h`, standing for the heuristic where it does not raise. Its divisor, `AStar.Scale`, is modelled, so the `ZeroDivisionError` raised when both ends are vertices and every edge value is `0` is modelled too. When an end is not a vertex the heuristic returns `0` and cannot raise. Values are whole numbers here, so the floating-point mean is exact.
- AStar.Run: promises a route when one exists, but not a cheapest one. The code does not promise one either: it stops when the target is popped, and the heuristic may overestimate.
- Kruskal.Run: proves a spanning forest built from graph edges in non-decreasing weight order. Minimality of the total weight is not proved.
- Prim.Run: proves a spanning forest of graph edges. Minimality of the total weight is not proved.
- Heap ties: `heapq` compares whole tuples. The model pops any entry of least key, so the order among equal keys is left open.
- Weights: edge values are whole numbers, `None`, or text that does not parse. The editor stores values as `str(int(...))` (main.py:416). Float weights, `inf` and `nan` are not modelled.
- Unparseable values: `has_negative_weights` and Prim read such a value as weight 1. Kruskal's `sorted` raises on it; this is modelled as the `Raises` outcome, after which the worker is never cleared.
- The graph fingerprint `_hash_graph` and the adjacency `get_adj` belong to `GraphState`, which is not part of this model. They are modelled from their uses, as described above.
- Host guarantee taken as a precondition: every edge joins two existing vertices (`EndsKnown`). The editor removes a vertex's edges together with it (main.py:546-547). A path solver's source and target are not assumed to be vertices: the solvers keep the names after the vertex is deleted or renamed, and the model covers those runs.
- Edges refer to their endpoint vertices by object in the source, and by name in the model. Vertex names are unique in the editor.
- DiagnosticsPanel.GraphDiagnostics and NpProblems.NPProblem store copies of the vertex and edge lists they are built with (diagnostics_panel.dfy, np_problems.dfy constructors). In the source they hold the host's own lists, so later edits by the host show through. The solvers share the lists through `GraphModel.Store`; these two classes do not, so that aliasing is not modelled for them.
- Python's recursion limit on deep searches is not modelled.
- Diagnostics.ComponentCount: this is the count the code computes, namely the search roots in vertex order. On a directed graph that count depends on the order. It is proved equal to the number of connected components only for undirected graphs (`DiagnosticsPanel.UndirectedInfo`).
- GenericSearch.DfsRun.Visit: the bridges recorded are proved to be exactly the normalised tree edges with `low[n] > tin[v]`. That these are the graph's bridges is not proved.
- GenericSearch.DfsRun.Visit: requires every node on the recursion stack to be visited. Every call the search makes meets this, because it pushes only nodes it has just visited.
- `tin`, `low` and `time` are passed together or not at all, so one flag models the three. Since `low` updates are guarded by `low is not None` and the stamps by `tin is not None`, passing only one of them would raise; that case is not modelled.
- The `on_path` hook of `generic_dfs` is accepted but never called in the source, so it is not modelled.
- `self.adj` and `self.rev_adj` of `GraphDiagnostics` do not exist before the first `update`. The model starts them empty.
- Vertex Cover's `list(cover)` order follows Python's set iteration and is left open.
- `needs_update` of `GraphAlgorithm` is set by `update` and by `mark_all_algorithms_dirty` but never cleared, so the check at algorithms.py:59 always passes. The model keeps the flag as the source does.
- Marking the solvers dirty does not make them recompute. `update` compares the state key (algorithms.py:48-49) before it looks at `needs_update`, so with an unchanged key it returns without running. `Solvers.GraphAlgorithm.Update` states this early return. Since the key ignores edge values (`Outcomes.FingerprintIgnoresValues`), editing only a weight leaves the shown answer as it was until the ends, the mode or the graph's pairs or names change.
- Naming.UpdateKValueFromInput: `int()` also accepts surrounding whitespace, underscores between digits and non-ASCII digits. The model reads only an optional sign followed by ASCII digits. The text box only ever holds digits.
- Naming.BaseAndIndexSpec: `\d` in the pattern of `get_base_and_index` also matches non-ASCII digits. The model reads ASCII digits only.
- The k-COLORING, HAMCYCLE and LONGEST-PATH solvers are not defined in the files of this model. `Highlights.HighlightEdges` still handles their names.
- Highlights.ApplyHighlights: the `str` of a pair escapes only backslashes, quotes and the newline, carriage return and tab characters; Python's `\x` and `\u` escapes of other non-printable characters are not modelled.
- `EDGE_LIMIT` is a parameter of `Highlights.ClickVertex`, because its value is not defined in the files of this model.
- Rendering, `render_debug`, colours, geometry, physics, zoom, saving and loading, and the event loop other than the edge-adding rule are out of scope.
